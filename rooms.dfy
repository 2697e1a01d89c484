/**
 * The room of backend/game_logic.py (class GameRoom): the sockets that joined,
 * the player number each was given, and the game the room starts and forwards to.
 */
module Rooms {
  import opened Wrappers
  import opened Pieces
  import opened Rules
  import opened GameLogic

  /** The room's status: waiting for players, playing, or finished. */
  datatype Status = Waiting | Playing | Finished

  /** What the room keeps for a socket: its player number and name. */
  datatype RoomPlayer = RoomPlayer(num: int, name: string)

  /** The answer of GameRoom.place_piece: no game yet, a socket not in the room, or the game's own answer. */
  datatype RoomReply = NotStarted | NotInRoom | Played(outcome: Outcome)

  /** The player numbers in use. */
  function Seats(players: map<string, RoomPlayer>): set<int>
  {
    set s | s in players :: players[s].num
  }

  /** No two sockets share a player number. */
  predicate SeatsDistinct(players: map<string, RoomPlayer>)
  {
    forall s, t :: s in players && t in players && s != t ==> players[s].num != players[t].num
  }

  /** Every player number is a seat of the table, 1..maxPlayers. */
  predicate SeatsInRange(players: map<string, RoomPlayer>, maxPlayers: int)
  {
    forall s :: s in players ==> 1 <= players[s].num <= maxPlayers
  }

  /** k is a seat of a table for maxPlayers. */
  predicate OnTable(k: int, maxPlayers: int)
  {
    1 <= k <= maxPlayers
  }

  /** The seats 1..maxPlayers. */
  function Table(maxPlayers: int): set<int>
  {
    set k | 1 <= k <= maxPlayers && OnTable(k, maxPlayers)
  }

  /** A game's seats are exactly the table 1..maxPlayers. */
  ghost predicate SeatsTable(seats: set<int>, maxPlayers: int)
  {
    forall k :: k in seats <==> OnTable(k, maxPlayers)
  }

  // ---------------------------------------------------------------- numbering

  /** add_player as written: the newcomer's number is one more than the number of sockets in the room. */
  function JoinNumberAsWritten(players: map<string, RoomPlayer>): int
  {
    |players| + 1
  }

  /** Sockets A and B join, A leaves, C joins: the sequence of rooms add_player and remove_player produce as written. */
  function RejoinScenario(): map<string, RoomPlayer>
  {
    var p0: map<string, RoomPlayer> := map[];
    var p1 := p0["A" := RoomPlayer(JoinNumberAsWritten(p0), "a")];
    var p2 := p1["B" := RoomPlayer(JoinNumberAsWritten(p1), "b")];
    var p3 := p2 - {"A"};
    p3["C" := RoomPlayer(JoinNumberAsWritten(p3), "c")]
  }

  /**
   * As written, numbering by the room's size hands out a number already in use:
   * after A and B join and A leaves, C is given 2 like B, and seat 1 stays empty
   * although the room is full for two players.
   */
  lemma AsWrittenNumberingRepeats()
    ensures var p := RejoinScenario();
      |p| == 2 && !SeatsDistinct(p) && Seats(p) == {2} && 1 !in Seats(p)
  {
    var p := RejoinScenario();
    assert p == map["B" := RoomPlayer(2, "b"), "C" := RoomPlayer(2, "c")];
    assert p.Keys == {"B", "C"};
    assert "B" in p && "C" in p && "B" != "C";
  }

  /** The smallest seat from k up to maxPlayers that is not in use. */
  function LeastFreeFrom(used: set<int>, k: int, maxPlayers: int): (r: int)
    requires 1 <= k && exists j :: k <= j <= maxPlayers && j !in used
    ensures k <= r <= maxPlayers && r !in used
    ensures forall j :: k <= j < r ==> j in used
    decreases maxPlayers - k
  {
    if k !in used then k
    else
      var j :| k <= j <= maxPlayers && j !in used;
      assert k + 1 <= j;
      LeastFreeFrom(used, k + 1, maxPlayers)
  }

  /** The number a newcomer gets: the smallest seat of the table that nobody holds. */
  function JoinNumber(players: map<string, RoomPlayer>, maxPlayers: int): (k: int)
    requires SeatsDistinct(players) && SeatsInRange(players, maxPlayers) && |players| < maxPlayers
    ensures 1 <= k <= maxPlayers && k !in Seats(players)
    ensures forall j :: 1 <= j < k ==> j in Seats(players)
  {
    FreeSeatExists(players, maxPlayers);
    LeastFreeFrom(Seats(players), 1, maxPlayers)
  }

  /**
   * While sockets only join, the room holds the seats 1..n for its n sockets, and
   * then the least free seat is the source's n + 1: the two numberings part only
   * after a socket has left.
   */
  lemma JoinNumberMatchesAsWritten(players: map<string, RoomPlayer>, maxPlayers: int)
    requires SeatsDistinct(players) && Seats(players) == Table(|players|) && |players| < maxPlayers
    ensures SeatsInRange(players, maxPlayers)
    ensures JoinNumber(players, maxPlayers) == JoinNumberAsWritten(players)
  {
    forall s | s in players ensures 1 <= players[s].num <= maxPlayers {
      assert players[s].num in Seats(players);
    }
    var k := JoinNumber(players, maxPlayers);
    assert k !in Table(|players|);
    assert |players| + 1 !in Seats(players);
  }

  /** The table has maxPlayers seats. */
  lemma {:induction false} TableSize(maxPlayers: int)
    requires maxPlayers >= 0
    ensures |Table(maxPlayers)| == maxPlayers
    decreases maxPlayers
  {
    if maxPlayers > 0 {
      TableSize(maxPlayers - 1);
      assert Table(maxPlayers) == Table(maxPlayers - 1) + {maxPlayers};
    }
  }

  /** With distinct numbers, there are as many seats in use as sockets. */
  lemma {:induction false} SeatsCount(players: map<string, RoomPlayer>)
    requires SeatsDistinct(players)
    ensures |Seats(players)| == |players|
    decreases |players|
  {
    if players != map[] {
      var s :| s in players;
      var rest := players - {s};
      assert rest.Keys == players.Keys - {s};
      forall n ensures n in Seats(players) <==> n in Seats(rest) + {players[s].num} {
        if n in Seats(players) && n != players[s].num {
          var t :| t in players && players[t].num == n;
          assert t in rest;
        }
      }
      assert Seats(players) == Seats(rest) + {players[s].num};
      assert players[s].num !in Seats(rest);
      assert |rest| == |players| - 1 by {
        assert |rest.Keys| == |players.Keys - {s}| == |players.Keys| - 1;
      }
      SeatsCount(rest);
    } else {
      assert Seats(players) == {};
    }
  }

  /** A set inside another is no larger. */
  lemma SubsetSize(a: set<int>, b: set<int>)
    requires a <= b
    ensures |a| <= |b|
  {
    assert b == a + (b - a);
  }

  /** A room below capacity with distinct numbers on the table has a free seat. */
  lemma FreeSeatExists(players: map<string, RoomPlayer>, maxPlayers: int)
    requires SeatsDistinct(players) && SeatsInRange(players, maxPlayers) && |players| < maxPlayers
    ensures exists j :: 1 <= j <= maxPlayers && j !in Seats(players)
  {
    if forall j :: 1 <= j <= maxPlayers ==> j in Seats(players) {
      TableSize(maxPlayers);
      SeatsCount(players);
      SubsetSize(Table(maxPlayers), Seats(players));
      assert false;
    }
  }

  /** A full room with distinct numbers on the table holds every seat: the game starts with every seat of the cycle taken. */
  lemma FullRoomHoldsTable(players: map<string, RoomPlayer>, maxPlayers: int)
    requires maxPlayers >= 0
    requires SeatsDistinct(players) && SeatsInRange(players, maxPlayers) && |players| == maxPlayers
    ensures Seats(players) == Table(maxPlayers)
  {
    TableSize(maxPlayers);
    SeatsCount(players);
    assert Seats(players) <= Table(maxPlayers);
    SubsetSize(Table(maxPlayers) - Seats(players), Table(maxPlayers));
    assert |Table(maxPlayers) - Seats(players)| == 0;
  }

  /** Seating a newcomer on a free seat of the table keeps the numbers distinct and on the table. */
  lemma JoinKeepsSeats(players: map<string, RoomPlayer>, maxPlayers: int, socketId: string, name: string)
    requires SeatsDistinct(players) && SeatsInRange(players, maxPlayers) && |players| < maxPlayers
    ensures var q := players[socketId := RoomPlayer(JoinNumber(players, maxPlayers), name)];
      SeatsDistinct(q) && SeatsInRange(q, maxPlayers) && |q| <= maxPlayers
  {
    var k := JoinNumber(players, maxPlayers);
    var q := players[socketId := RoomPlayer(k, name)];
    assert q.Keys == players.Keys + {socketId};
    forall s, t | s in q && t in q && s != t
      ensures q[s].num != q[t].num
    {
      if s != socketId && t != socketId {
        assert q[s] == players[s] && q[t] == players[t];
      } else if s == socketId {
        assert players[t].num in Seats(players);
      } else {
        assert players[s].num in Seats(players);
      }
    }
  }

  /** A seating that holds only room numbers and every socket's number holds exactly the room's numbers. */
  lemma SeatedExactly(players: map<string, RoomPlayer>, seated: map<int, PlayerState>)
    requires forall k :: k in seated ==> k in Seats(players)
    requires forall s :: s in players ==> players[s].num in seated
    ensures seated.Keys == Seats(players)
  {
    forall k | k in Seats(players) ensures k in seated.Keys {
      var s :| s in players && players[s].num == k;
    }
    assert forall k :: k in seated.Keys ==> k in Seats(players);
  }

  /** A set of sockets is empty or has a member. */
  lemma SomeSocket(s: set<string>)
    ensures s == {} || exists x :: x in s
  {
    if forall x :: x !in s {
      assert s == {};
    }
  }

  /**
   * In a room's running game the end-of-game check settles as it should: every
   * player who can move sits at the room's table, so the check ends the game
   * exactly when nobody can move and otherwise leaves the turn with a mover.
   */
  lemma RoomGameSettles(room: GameRoom)
    requires room.Valid() && room.game != null && !room.game.gameOver
    ensures var g := room.game;
      var movers := Movers(g.board, g.boardSize, g.maxPlayers, g.catalog, g.players);
      1 in g.players &&
      (forall p :: p in movers ==> OnTable(p, room.maxPlayers)) &&
      var (c, o, w) := Settle(movers, ScoresOf(g.catalog, g.players), g.maxPlayers, g.currentPlayer, false, g.winner);
      (o <==> movers == {}) && (!o ==> c in movers) && (o ==> w == WinnerOf(ScoresOf(g.catalog, g.players)))
  {
    var g := room.game;
    var movers := Movers(g.board, g.boardSize, g.maxPlayers, g.catalog, g.players);
    assert 1 in Table(room.maxPlayers);
    assert 1 in g.players;
    SettleOutcome(movers, ScoresOf(g.catalog, g.players), g.maxPlayers, g.currentPlayer, false, g.winner);
  }

  class GameRoom {
    const roomId: string
    const maxPlayers: int
    var players: map<string, RoomPlayer>
    var game: Game?
    var status: Status
    var currentPlayer: Option<int>

    /**
     * The room's state: at most maxPlayers sockets on distinct seats of the table;
     * no game exactly while waiting; once there is a game, it is valid, has the
     * room's size, the room mirrors its current player, and the room is finished
     * exactly when the game is over; the game seats exactly the table 1..maxPlayers.
     */
    ghost predicate Valid()
      reads this, game
    {
      maxPlayers >= 1 &&
      |players| <= maxPlayers && SeatsDistinct(players) && SeatsInRange(players, maxPlayers) &&
      (game == null <==> status == Waiting) &&
      (game == null ==> currentPlayer == None) &&
      (game != null ==>
         game.Valid() && game.maxPlayers == maxPlayers && SeatsTable(game.players.Keys, maxPlayers) &&
         currentPlayer == Some(game.currentPlayer) &&
         (status == Finished <==> game.gameOver))
    }

    /** A new room: nobody in it, no game, waiting. */
    constructor(roomId: string, maxPlayers: int)
      requires maxPlayers >= 1
      ensures Valid()
      ensures this.roomId == roomId && this.maxPlayers == maxPlayers
      ensures players == map[] && game == null && status == Waiting && currentPlayer == None
    {
      this.roomId := roomId;
      this.maxPlayers := maxPlayers;
      players := map[];
      game := null;
      status := Waiting;
      currentPlayer := None;
    }

    /**
     * add_player: a full room turns the socket away; otherwise the socket gets the
     * smallest free seat of the table.
     */
    method AddPlayer(socketId: string, name: string) returns (num: Option<int>)
      requires Valid()
      modifies this
      ensures Valid()
      ensures old(|players|) >= maxPlayers ==> num == None && players == old(players)
      ensures old(|players|) < maxPlayers ==>
        num == Some(JoinNumber(old(players), maxPlayers)) &&
        players == old(players)[socketId := RoomPlayer(num.value, name)]
      ensures num.Some? ==> 1 <= num.value <= maxPlayers && num.value !in Seats(old(players))
      ensures game == old(game) && status == old(status) && currentPlayer == old(currentPlayer)
    {
      if |players| >= maxPlayers {
        return None;
      }
      var playerNum := JoinNumber(players, maxPlayers);
      JoinKeepsSeats(players, maxPlayers, socketId, name);
      players := players[socketId := RoomPlayer(playerNum, name)];
      return Some(playerNum);
    }

    /** remove_player: the socket leaves the room, if it was in it. */
    method RemovePlayer(socketId: string)
      requires Valid()
      modifies this
      ensures Valid()
      ensures players == old(players) - {socketId}
      ensures game == old(game) && status == old(status) && currentPlayer == old(currentPlayer)
    {
      if socketId in players {
        assert (players - {socketId}).Keys == players.Keys - {socketId};
        players := players - {socketId};
      }
    }

    /** can_start_game: the room is full. */
    method CanStartGame() returns (b: bool)
      ensures b <==> |players| == maxPlayers
    {
      return |players| == maxPlayers;
    }

    /**
     * start_game: in a full room, a new game of the room's size with every socket
     * seated at its number; the room is playing and player 1 is to move. Otherwise
     * nothing happens.
     */
    method StartGame()
      requires Valid()
      modifies this
      ensures Valid()
      ensures players == old(players)
      ensures old(|players|) != maxPlayers ==>
        game == old(game) && status == old(status) && currentPlayer == old(currentPlayer)
      ensures old(|players|) == maxPlayers ==>
        game != null && fresh(game) && status == Playing && currentPlayer == Some(1) &&
        game.players.Keys == Table(maxPlayers) &&
        (forall s :: s in players ==> game.players[players[s].num] == PlayerState(s, game.fullHand, [], true)) &&
        !game.gameOver && forall y, x :: 0 <= y < game.boardSize && 0 <= x < game.boardSize ==> game.board[y][x] == 0
    {
      if |players| == maxPlayers {
        var g := SeatedGame();
        Install(g);
      }
    }

    /** The game start_game builds for a full room: empty, every socket seated at its number with a full hand, player 1 to move. */
    method SeatedGame() returns (g: Game)
      requires Valid() && |players| == maxPlayers
      ensures fresh(g) && g.Valid() && g.maxPlayers == maxPlayers && g.players.Keys == Table(maxPlayers)
      ensures forall s :: s in players ==> g.players[players[s].num] == PlayerState(s, g.fullHand, [], true)
      ensures g.currentPlayer == 1 && !g.gameOver
      ensures forall y, x :: 0 <= y < g.boardSize && 0 <= x < g.boardSize ==> g.board[y][x] == 0
    {
      g := NewGame();
      SeatAll(g);
      FullRoomHoldsTable(players, maxPlayers);
    }

    /** The last step of start_game: the room takes up a seated game at player 1's turn. */
    method Install(g: Game)
      requires Valid() && g.Valid() && g.maxPlayers == maxPlayers && g.players.Keys == Table(maxPlayers)
      requires g.currentPlayer == 1 && !g.gameOver
      modifies this
      ensures Valid()
      ensures game == g && status == Playing && currentPlayer == Some(1)
      ensures players == old(players)
    {
      assert SeatsTable(g.players.Keys, maxPlayers);
      game := g;
      status := Playing;
      currentPlayer := Some(1);
    }

    /** The new game of start_game, as the room sees it: of the room's size, empty, nobody seated, player 1 to move. */
    method NewGame() returns (g: Game)
      requires Valid()
      ensures fresh(g) && g.Valid() && g.maxPlayers == maxPlayers && g.players == map[]
      ensures g.currentPlayer == 1 && !g.gameOver
      ensures forall y, x :: 0 <= y < g.boardSize && 0 <= x < g.boardSize ==> g.board[y][x] == 0
    {
      g := new Game(maxPlayers);
    }

    /** The seating loop of start_game: game.add_player for every socket of the room. */
    method SeatAll(g: Game)
      requires g.Valid() && g.players == map[] && SeatsDistinct(players)
      modifies g
      ensures g.Valid()
      ensures g.players.Keys == Seats(players)
      ensures forall s :: s in players ==> g.players[players[s].num] == PlayerState(s, g.fullHand, [], true)
      ensures g.board == old(g.board) && g.currentPlayer == old(g.currentPlayer)
      ensures g.gameOver == old(g.gameOver) && g.winner == old(g.winner)
      ensures g.maxPlayers == old(g.maxPlayers) && g.boardSize == old(g.boardSize)
    {
      var todo := players.Keys;
      while todo != {}
        invariant todo <= players.Keys
        invariant g.Valid()
        invariant forall k :: k in g.players ==> k in Seats(players)
        invariant forall s :: s in players && s !in todo ==>
          players[s].num in g.players && g.players[players[s].num] == PlayerState(s, g.fullHand, [], true)
        invariant g.board == old(g.board) && g.currentPlayer == old(g.currentPlayer)
        invariant g.gameOver == old(g.gameOver) && g.winner == old(g.winner)
        invariant g.maxPlayers == old(g.maxPlayers) && g.boardSize == old(g.boardSize)
        decreases |todo|
      {
        SomeSocket(todo);
        var s :| s in todo;
        assert players[s].num in Seats(players);
        g.AddPlayer(s, players[s].num);
        todo := todo - {s};
      }
      SeatedExactly(players, g.players);
    }

    /**
     * place_piece of the room: no game, or a socket not in the room, is refused
     * and nothing changes; otherwise the game decides, with the socket's number,
     * and on success the room takes over the game's current player and finishes
     * when the game is over.
     */
    method PlacePiece(playerId: string, pieceId: string, position: (int, int), rotation: int, flip: bool)
      returns (r: RoomReply)
      requires Valid()
      modifies this, game
      ensures Valid()
      ensures game == old(game) && players == old(players)
      ensures old(game) == null ==> r == NotStarted
      ensures old(game) != null && playerId !in players ==> r == NotInRoom
      ensures !r.Played? ==> status == old(status) && currentPlayer == old(currentPlayer)
      ensures !r.Played? && game != null ==>
        game.board == old(game.board) && game.players == old(game.players) &&
        game.currentPlayer == old(game.currentPlayer) && game.gameOver == old(game.gameOver)
      ensures r.Played? ==> game != null && playerId in players
      ensures r.Played? && r.outcome.Success? ==>
        !old(game.gameOver) && old(game.currentPlayer) == players[playerId].num
      ensures r.Played? && r.outcome.Failure? ==>
        status == old(status) && currentPlayer == old(currentPlayer) &&
        game.board == old(game.board) && game.players == old(game.players)
      ensures r.Played? && r.outcome.Success? ==>
        currentPlayer == Some(game.currentPlayer) && (status == Finished <==> game.gameOver)
    {
      if game == null {
        return NotStarted;
      }
      if playerId !in players {
        return NotInRoom;
      }
      var playerNum := players[playerId].num;
      ghost var seats := game.players.Keys;
      assert SeatsTable(seats, maxPlayers);
      var result := Forward(game, playerNum, pieceId, position, rotation, flip);
      assert game.players.Keys == seats;
      if result.Success? {
        currentPlayer := Some(game.currentPlayer);
        if game.gameOver {
          status := Finished;
        }
      }
      return Played(result);
    }

    /**
     * The call of place_piece on the room's game, with what the room relies on:
     * the game stays valid, a refused placement changes nothing, and a placement
     * goes ahead only in a running game on p's turn.
     */
    method Forward(g: Game, p: int, pieceId: string, position: (int, int), rotation: int, flip: bool)
      returns (result: Outcome)
      requires g.Valid()
      modifies g
      ensures g.Valid() && g.maxPlayers == old(g.maxPlayers) && g.players.Keys == old(g.players.Keys)
      ensures result.Success? ==> !old(g.gameOver) && old(g.currentPlayer) == p && p in old(g.players)
      ensures result.Failure? ==>
        g.board == old(g.board) && g.players == old(g.players) &&
        g.currentPlayer == old(g.currentPlayer) && g.gameOver == old(g.gameOver) && g.winner == old(g.winner)
    {
      result := g.PlacePiece(p, pieceId, position.0, position.1, rotation, flip);
    }

    /**
     * get_valid_positions of the room: no anchors without a game or for a socket
     * not in the room; otherwise the game's anchors for the socket's number.
     */
    method GetValidPositions(playerId: string, pieceId: string, rotation: int, flip: bool)
      returns (positions: seq<(int, int)>)
      requires Valid()
      ensures game == null || playerId !in players ==> positions == []
      ensures game != null && playerId in players ==>
        var coords := TransformIn(game.catalog, pieceId, rotation, flip);
        (coords.None? ==> positions == []) &&
        (coords.Some? ==>
           ExactAnchors(game.board, game.boardSize, game.maxPlayers, coords.value, players[playerId].num,
                        FirstMoveOf(game.players, players[playerId].num), positions))
    {
      if game == null {
        return [];
      }
      if playerId !in players {
        return [];
      }
      var playerNum := players[playerId].num;
      positions := game.GetValidPositions(playerNum, pieceId, rotation, flip);
    }

    /** is_game_over: there is a game and it is over; the same as the room being finished. */
    method IsGameOver() returns (b: bool)
      requires Valid()
      ensures b <==> game != null && game.gameOver
      ensures b <==> status == Finished
    {
      return game != null && game.gameOver;
    }

    /** get_winner: the game's winner, none before the game starts; there is one exactly when the game is over. */
    method GetWinner() returns (w: Winner)
      requires Valid()
      ensures game == null ==> w == NoWinner
      ensures game != null ==> w == game.winner
      ensures w != NoWinner <==> status == Finished
    {
      if game != null {
        return game.winner;
      }
      return NoWinner;
    }

    /** get_scores: the game's scores, none before the game starts. */
    method GetScores() returns (scores: map<int, nat>)
      ensures game == null ==> scores == map[]
      ensures game != null ==> scores == ScoresOf(game.catalog, game.players)
    {
      if game != null {
        scores := game.GetScores();
      } else {
        scores := map[];
      }
    }
  }
}
