/**
 * The rules the game engine of backend/game_logic.py applies, stated on plain
 * values: the ordered placement check of is_valid_position, the move search of
 * can_player_place_any_piece, the turn cycle of switch_player and the winner
 * choice of determine_winner. The class in game.dfy computes these with loops
 * and is proved to agree with them.
 */
module Rules {
  import opened Wrappers
  import opened Pieces

  /** board[y][x] is 0 for an empty cell, otherwise the number of the player covering it. */
  type Board = seq<seq<int>>

  /** An n-by-n board. */
  predicate IsBoard(board: Board, n: int)
  {
    |board| == n && forall y :: 0 <= y < n ==> |board[y]| == n
  }

  predicate InBounds(n: int, c: Cell)
  {
    0 <= c.0 < n && 0 <= c.1 < n
  }

  /** The cell c is on the board and covered by player p. */
  predicate Owns(board: Board, n: int, c: Cell, p: int)
    requires IsBoard(board, n)
  {
    InBounds(n, c) && board[c.1][c.0] == p
  }

  /** The cell c is on the board and empty. */
  predicate Free(board: Board, n: int, c: Cell)
    requires IsBoard(board, n)
  {
    InBounds(n, c) && board[c.1][c.0] == 0
  }

  /** The four orthogonal and the four diagonal neighbour offsets, in the order they are tried. */
  const EDGE_STEPS: seq<Cell> := [(-1, 0), (1, 0), (0, -1), (0, 1)]
  const CORNER_STEPS: seq<Cell> := [(-1, -1), (-1, 1), (1, -1), (1, 1)]

  function Step(c: Cell, d: Cell): Cell
  {
    (c.0 + d.0, c.1 + d.1)
  }

  /** Some cell of t has an orthogonal neighbour that p already covers. */
  predicate TouchesEdge(board: Board, n: int, t: Shape, p: int)
    requires IsBoard(board, n)
  {
    exists i, k :: 0 <= i < |t| && 0 <= k < 4 && Owns(board, n, Step(t[i], EDGE_STEPS[k]), p)
  }

  /** Some cell of t has a diagonal neighbour that p already covers. */
  predicate TouchesCorner(board: Board, n: int, t: Shape, p: int)
    requires IsBoard(board, n)
  {
    exists i, k :: 0 <= i < |t| && 0 <= k < 4 && Owns(board, n, Step(t[i], CORNER_STEPS[k]), p)
  }

  /** Why a placement is refused. UnknownPlayer stands for the KeyError raised on an unseated player. */
  datatype Reason = OutOfBounds | Occupied | EdgeContact | MissingStartCorner | NoCornerContact | UnknownPlayer

  datatype Verdict = Accept | Reject(reason: Reason)

  /** What the first loop of is_valid_position says about one target cell. */
  function CellCheck(board: Board, n: int, c: Cell): (r: Option<Reason>)
    requires IsBoard(board, n)
    ensures r.None? <==> Free(board, n, c)
    ensures r == Some(OutOfBounds) <==> !InBounds(n, c)
  {
    if !InBounds(n, c) then Some(OutOfBounds)
    else if board[c.1][c.0] != 0 then Some(Occupied)
    else None
  }

  /** The verdict on the first target cell, in list order, that is off the board or covered. */
  function FirstBlocked(board: Board, n: int, t: Shape): (r: Option<Reason>)
    requires IsBoard(board, n)
    ensures r.None? || r.value == OutOfBounds || r.value == Occupied
  {
    if t == [] then None
    else if CellCheck(board, n, t[0]).Some? then CellCheck(board, n, t[0])
    else FirstBlocked(board, n, t[1..])
  }

  /**
   * The corner a player's first piece must cover: in a two-player game (0,0) for
   * player 1 and (n-1,n-1) for player 2; otherwise the four corners clockwise from
   * (0,0) for players 1 to 4. Any other player number has none.
   */
  function StartCorner(maxPlayers: int, n: int, p: int): (c: Option<Cell>)
    ensures c.Some? ==> 1 <= p <= 4 && (maxPlayers == 2 ==> p <= 2)
    ensures c.Some? && n >= 1 ==> InBounds(n, c.value) && (c.value.0 == 0 || c.value.0 == n - 1) && (c.value.1 == 0 || c.value.1 == n - 1)
  {
    if maxPlayers == 2 then
      if p == 1 then Some((0, 0)) else if p == 2 then Some((n - 1, n - 1)) else None
    else if p == 1 then Some((0, 0))
    else if p == 2 then Some((n - 1, 0))
    else if p == 3 then Some((n - 1, n - 1))
    else if p == 4 then Some((0, n - 1))
    else None
  }

  /**
   * is_valid_position for the normalised cells anchored at (x0, y0) and player p,
   * whose first_move flag is firstMove (None when p is not seated). Checks, in
   * order: every target on the board and empty, no edge contact with p's cells,
   * then the start corner on a first move or a diagonal contact otherwise.
   */
  function Validate(board: Board, n: int, maxPlayers: int, cells: Shape, x0: int, y0: int, p: int,
                    firstMove: Option<bool>): (v: Verdict)
    requires IsBoard(board, n)
    ensures var t := Translate(cells, x0, y0);
      (v == Reject(OutOfBounds) || v == Reject(Occupied)) <==> exists i :: 0 <= i < |t| && !Free(board, n, t[i])
    ensures v == Reject(UnknownPlayer) ==> firstMove.None?
    ensures v == Accept ==> firstMove.Some?
  {
    var t := Translate(cells, x0, y0);
    AllFree(board, n, t);
    if FirstBlocked(board, n, t).Some? then Reject(FirstBlocked(board, n, t).value)
    else if TouchesEdge(board, n, t, p) then Reject(EdgeContact)
    else if firstMove.None? then Reject(UnknownPlayer)
    else if firstMove.value then
      var corner := StartCorner(maxPlayers, n, p);
      if corner.Some? && corner.value !in t then Reject(MissingStartCorner) else Accept
    else if TouchesCorner(board, n, t, p) then Accept
    else Reject(NoCornerContact)
  }

  /** The blocking check reports the first failing cell: every cell before it passes, and its own check fails with that reason. */
  lemma {:induction false} FirstBlockedIsFirst(board: Board, n: int, t: Shape)
    requires IsBoard(board, n)
    ensures FirstBlocked(board, n, t).None? <==> forall i :: 0 <= i < |t| ==> CellCheck(board, n, t[i]).None?
    ensures FirstBlocked(board, n, t).Some? ==>
      exists i :: 0 <= i < |t| && (forall j :: 0 <= j < i ==> CellCheck(board, n, t[j]).None?) &&
        CellCheck(board, n, t[i]) == FirstBlocked(board, n, t)
  {
    if t != [] {
      FirstBlockedIsFirst(board, n, t[1..]);
      if CellCheck(board, n, t[0]).None? && FirstBlocked(board, n, t).Some? {
        var i :| 0 <= i < |t[1..]| && (forall j :: 0 <= j < i ==> CellCheck(board, n, t[1..][j]).None?) &&
          CellCheck(board, n, t[1..][i]) == FirstBlocked(board, n, t[1..]);
        assert forall j :: 0 <= j < i + 1 ==> CellCheck(board, n, t[j]).None? by {
          forall j | 0 <= j < i + 1 ensures CellCheck(board, n, t[j]).None? {
            if j > 0 { assert t[j] == t[1..][j - 1]; }
          }
        }
        assert t[i + 1] == t[1..][i];
      }
      if FirstBlocked(board, n, t).None? {
        forall i | 0 <= i < |t| ensures CellCheck(board, n, t[i]).None? {
          if i > 0 { assert t[i] == t[1..][i - 1]; }
        }
      }
    }
  }

  /** No target cell is blocked exactly when every target is on the board and empty. */
  lemma AllFree(board: Board, n: int, t: Shape)
    requires IsBoard(board, n)
    ensures FirstBlocked(board, n, t).None? <==> forall i :: 0 <= i < |t| ==> Free(board, n, t[i])
  {
    FirstBlockedIsFirst(board, n, t);
  }

  /**
   * A placement is accepted exactly when all targets are free, none of them touches
   * p's cells along an edge, p is seated, and the first-move corner rule or the
   * diagonal-contact rule holds.
   */
  lemma ValidateAccepts(board: Board, n: int, maxPlayers: int, cells: Shape, x0: int, y0: int, p: int,
                        firstMove: Option<bool>)
    requires IsBoard(board, n)
    ensures var t := Translate(cells, x0, y0);
      Validate(board, n, maxPlayers, cells, x0, y0, p, firstMove) == Accept <==>
        (forall i :: 0 <= i < |t| ==> Free(board, n, t[i])) &&
        !TouchesEdge(board, n, t, p) &&
        firstMove.Some? &&
        (if firstMove.value
         then StartCorner(maxPlayers, n, p).None? || StartCorner(maxPlayers, n, p).value in t
         else TouchesCorner(board, n, t, p))
  {
    AllFree(board, n, Translate(cells, x0, y0));
  }

  /** An accepted first move of player 1 covers (0,0); in a two-player game player 2's covers (n-1,n-1). */
  lemma StartCornerCovered(board: Board, n: int, maxPlayers: int, cells: Shape, x0: int, y0: int, p: int)
    requires IsBoard(board, n)
    requires Validate(board, n, maxPlayers, cells, x0, y0, p, Some(true)) == Accept
    ensures p == 1 ==> (0, 0) in Translate(cells, x0, y0)
    ensures p == 2 && maxPlayers == 2 ==> (n - 1, n - 1) in Translate(cells, x0, y0)
    ensures p == 2 && maxPlayers != 2 ==> (n - 1, 0) in Translate(cells, x0, y0)
    ensures p == 3 && maxPlayers != 2 ==> (n - 1, n - 1) in Translate(cells, x0, y0)
    ensures p == 4 && maxPlayers != 2 ==> (0, n - 1) in Translate(cells, x0, y0)
  {
  }

  // ---------------------------------------------------------------- move search

  /** The four rotations tried by the move search, in order. */
  const ROTATIONS: seq<int> := [0, 90, 180, 270]

  /** Some anchor on the board accepts cells for p. */
  ghost predicate FitsSomewhere(board: Board, n: int, maxPlayers: int, cells: Shape, p: int, firstMove: Option<bool>)
    requires IsBoard(board, n)
  {
    exists x, y :: 0 <= x < n && 0 <= y < n && Validate(board, n, maxPlayers, cells, x, y, p, firstMove) == Accept
  }

  /** Piece pid of table, turned by rotation and flipped if asked, is known and fits somewhere. */
  ghost predicate OrientationFits(board: Board, n: int, maxPlayers: int, table: map<string, Piece>, pid: string,
                                  rotation: int, flip: bool, p: int, firstMove: Option<bool>)
    requires IsBoard(board, n) && ValidTable(table)
  {
    var cells := TransformIn(table, pid, rotation, flip);
    cells.Some? && FitsSomewhere(board, n, maxPlayers, cells.value, p, firstMove)
  }

  /** One of the eight orientations tried by the move search fits. */
  ghost predicate PieceFits(board: Board, n: int, maxPlayers: int, table: map<string, Piece>, pid: string, p: int,
                            firstMove: Option<bool>)
    requires IsBoard(board, n) && ValidTable(table)
  {
    exists r, flip :: 0 <= r < 4 && OrientationFits(board, n, maxPlayers, table, pid, ROTATIONS[r], flip, p, firstMove)
  }

  /** Some piece of hand fits somewhere in some orientation. */
  ghost predicate HasMove(board: Board, n: int, maxPlayers: int, table: map<string, Piece>, hand: seq<string>, p: int,
                          firstMove: Option<bool>)
    requires IsBoard(board, n) && ValidTable(table)
  {
    exists i :: 0 <= i < |hand| && PieceFits(board, n, maxPlayers, table, hand[i], p, firstMove)
  }

  /** Any piece of the hand that passes the check at some rotation, flip and anchor is a move. */
  lemma MoveFromWitness(board: Board, n: int, maxPlayers: int, table: map<string, Piece>, hand: seq<string>, p: int,
                        firstMove: Option<bool>, i: int, r: int, flip: bool, x: int, y: int)
    requires IsBoard(board, n) && ValidTable(table)
    requires 0 <= i < |hand| && 0 <= r < 4 && 0 <= x < n && 0 <= y < n
    requires TransformIn(table, hand[i], ROTATIONS[r], flip).Some?
    requires Validate(board, n, maxPlayers, TransformIn(table, hand[i], ROTATIONS[r], flip).value, x, y, p, firstMove) == Accept
    ensures HasMove(board, n, maxPlayers, table, hand, p, firstMove)
  {
    assert OrientationFits(board, n, maxPlayers, table, hand[i], ROTATIONS[r], flip, p, firstMove);
    assert PieceFits(board, n, maxPlayers, table, hand[i], p, firstMove);
  }

  /** A hand whose pieces all belong to a bigger hand has no more moves than it. */
  lemma HasMoveSubhand(board: Board, n: int, maxPlayers: int, table: map<string, Piece>, small: seq<string>,
                       big: seq<string>, p: int, firstMove: Option<bool>)
    requires IsBoard(board, n) && ValidTable(table)
    requires forall id :: id in small ==> id in big
    ensures HasMove(board, n, maxPlayers, table, small, p, firstMove) ==> HasMove(board, n, maxPlayers, table, big, p, firstMove)
  {
    if HasMove(board, n, maxPlayers, table, small, p, firstMove) {
      var i :| 0 <= i < |small| && PieceFits(board, n, maxPlayers, table, small[i], p, firstMove);
      assert small[i] in big;
      var j :| 0 <= j < |big| && big[j] == small[i];
    }
  }

  /** An empty hand has no move. */
  lemma EmptyHandHasNoMove(board: Board, n: int, maxPlayers: int, table: map<string, Piece>, p: int, firstMove: Option<bool>)
    requires IsBoard(board, n) && ValidTable(table)
    ensures !HasMove(board, n, maxPlayers, table, [], p, firstMove)
  {
  }

  /** Anchors are listed x first, then y: (a0, a1) comes before (b0, b1). */
  predicate AnchorBefore(a: (int, int), b: (int, int))
  {
    a.0 < b.0 || (a.0 == b.0 && a.1 < b.1)
  }

  /** Each anchor of the list comes strictly before the next. */
  predicate AnchorsAscending(s: seq<(int, int)>)
  {
    forall i, j :: 0 <= i < j < |s| ==> AnchorBefore(s[i], s[j])
  }

  // ---------------------------------------------------------------- turn order

  /** The player k turns after player c, counting 1..maxPlayers round the table. */
  function Cycle(c: int, k: int, maxPlayers: int): (r: int)
    requires maxPlayers >= 1
    ensures 1 <= r <= maxPlayers
  {
    (c - 1 + k) % maxPlayers + 1
  }

  /** Moving on j turns and then k turns is moving on j + k turns. */
  lemma CycleAdd(c: int, j: int, k: int, maxPlayers: int)
    requires maxPlayers >= 1
    ensures Cycle(Cycle(c, j, maxPlayers), k, maxPlayers) == Cycle(c, j + k, maxPlayers)
  {
    var a := c - 1 + j;
    assert (a % maxPlayers + k) % maxPlayers == (a + k) % maxPlayers by {
      ModShift(a, k, maxPlayers);
    }
  }

  /** Euclidean division is unique: a = d*m + r with 0 <= r < m fixes r as a % m. */
  lemma ModUnique(a: int, d: int, r: int, m: int)
    requires m >= 1 && 0 <= r < m && a == d * m + r
    ensures a % m == r
  {
    var e := d - a / m;
    assert e * m == a % m - r;
    if e >= 1 {
      MulAtLeast(e, m);
      assert false;
    } else if e <= -1 {
      MulAtLeast(-e, m);
      assert false;
    }
  }

  lemma MulAtLeast(e: int, m: int)
    requires e >= 1 && m >= 1
    ensures e * m >= m
  {
    assert e * m == (e - 1) * m + m;
  }

  lemma ModShift(a: int, k: int, m: int)
    requires m >= 1
    ensures (a % m + k) % m == (a + k) % m
  {
    var b := a % m + k;
    ModUnique(a + k, a / m + b / m, b % m, m);
  }

  lemma ModOfMultiple(b: int, q: int, m: int)
    requires m >= 1
    ensures (b + q * m) % m == b % m
  {
    ModUnique(b + q * m, b / m + q, b % m, m);
  }

  /** Moving on no turns stays at the seat. */
  lemma CycleZero(c: int, maxPlayers: int)
    requires 1 <= c <= maxPlayers
    ensures Cycle(c, 0, maxPlayers) == c
  {
    ModUnique(c - 1, 0, c - 1, maxPlayers);
  }

  /** A full round brings every seat in 1..maxPlayers back to itself. */
  lemma CycleFullRound(c: int, maxPlayers: int)
    requires 1 <= c <= maxPlayers
    ensures Cycle(c, maxPlayers, maxPlayers) == c
  {
    ModOfMultiple(c - 1, 1, maxPlayers);
    ModUnique(c - 1, 0, c - 1, maxPlayers);
  }

  /** Within one round every seat is reached exactly once: distinct steps give distinct seats. */
  lemma CycleDistinct(c: int, j: int, k: int, maxPlayers: int)
    requires maxPlayers >= 1 && 0 <= j < k < maxPlayers
    ensures Cycle(c, j, maxPlayers) != Cycle(c, k, maxPlayers)
  {
    var a := c - 1 + j;
    var r := a % maxPlayers;
    if r + (k - j) < maxPlayers {
      ModUnique(a + (k - j), a / maxPlayers, r + (k - j), maxPlayers);
    } else {
      ModUnique(a + (k - j), a / maxPlayers + 1, r + (k - j) - maxPlayers, maxPlayers);
    }
  }

  /** Every seat in 1..maxPlayers is reached from c within one round. */
  lemma CycleReaches(c: int, s: int, maxPlayers: int)
    requires 1 <= s <= maxPlayers
    ensures exists k :: 0 <= k < maxPlayers && Cycle(c, k, maxPlayers) == s
  {
    var k := (s - c) % maxPlayers;
    ModShift(s - c, c - 1, maxPlayers);
    assert Cycle(c, k, maxPlayers) == (k + c - 1) % maxPlayers + 1;
    ModOfMultiple(s - 1, 0, maxPlayers);
  }

  // ---------------------------------------------------------------- winner

  datatype Winner = NoWinner | Won(player: int) | Tie

  /** Player q has strictly fewer cells left than every other player. */
  predicate StrictLeader(scores: map<int, nat>, q: int)
  {
    q in scores && forall o :: o in scores && o != q ==> scores[q] < scores[o]
  }

  /** Player q has no more cells left than any player. */
  predicate Leader(scores: map<int, nat>, q: int)
  {
    q in scores && forall o :: o in scores ==> scores[q] <= scores[o]
  }

  /**
   * determine_winner on the remaining-cell scores: the one player with the fewest
   * cells left, or Tie when the fewest is shared.
   */
  ghost function WinnerOf(scores: map<int, nat>): (w: Winner)
    requires scores != map[]
    ensures w.Won? <==> exists q :: StrictLeader(scores, q)
    ensures w.Won? ==> StrictLeader(scores, w.player)
    ensures w == Tie ==> exists a, b :: a != b && Leader(scores, a) && Leader(scores, b)
    ensures w != NoWinner
  {
    if exists q :: StrictLeader(scores, q) then
      var q :| StrictLeader(scores, q);
      Won(q)
    else
      LeaderExists(scores);
      var a :| Leader(scores, a);
      assert !StrictLeader(scores, a);
      var b :| b in scores && b != a && scores[a] >= scores[b];
      assert Leader(scores, b);
      Tie
  }

  /** A map is empty or has a key. */
  lemma SomeKey(m: map<int, nat>)
    ensures m == map[] || exists k :: k in m
  {
    if forall k :: k !in m {
      assert m == map[];
    }
  }

  /** A set is empty or has a member. */
  lemma SomeMember(s: set<int>)
    ensures s == {} || exists x :: x in s
  {
    if forall x :: x !in s {
      assert s == {};
    }
  }

  /** Every non-empty score table has a player with the fewest cells left. */
  lemma {:induction false} LeaderExists(scores: map<int, nat>)
    requires scores != map[]
    ensures exists q :: Leader(scores, q)
    decreases |scores|
  {
    SomeKey(scores);
    var k :| k in scores;
    var rest := scores - {k};
    assert forall o :: o in scores ==> o == k || o in rest;
    if rest == map[] {
      assert forall o :: o in scores ==> o == k;
      assert Leader(scores, k);
    } else {
      assert |rest| < |scores| by {
        assert rest.Keys == scores.Keys - {k};
      }
      LeaderExists(rest);
      var q :| Leader(rest, q);
      if scores[k] <= scores[q] {
        assert Leader(scores, k);
      } else {
        assert Leader(scores, q);
      }
    }
  }

  /** A strict leader is the winner. */
  lemma StrictLeaderIsWinner(scores: map<int, nat>, q: int)
    requires StrictLeader(scores, q)
    ensures WinnerOf(scores) == Won(q)
  {
    var w := WinnerOf(scores);
    StrictLeaderUnique(scores, q, w.player);
  }

  /** At most one player can be the strict leader. */
  lemma StrictLeaderUnique(scores: map<int, nat>, a: int, b: int)
    requires StrictLeader(scores, a) && StrictLeader(scores, b)
    ensures a == b
  {
  }
}
