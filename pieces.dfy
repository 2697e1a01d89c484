/**
 * The piece catalog and its integer geometry (backend/pieces.py).
 * A shape is a list of (x, y) offsets; every transform keeps the list's order.
 */
module Pieces {
  import opened Wrappers

  type Cell = (int, int)
  type Shape = seq<Cell>

  /** A catalog entry. The display name is not modelled. */
  datatype Piece = Piece(size: nat, shapes: seq<Shape>)

  /** The fixed table of 21 polyominoes, keyed by piece id. */
  const PIECES: map<string, Piece> := map[
    "piece_1" := Piece(1, [[(0, 0)]]),
    "piece_2" := Piece(2, [[(0, 0), (1, 0)]]),
    "piece_3_line" := Piece(3, [[(0, 0), (1, 0), (2, 0)]]),
    "piece_3_l" := Piece(3, [[(0, 0), (1, 0), (0, 1)]]),
    "piece_4_line" := Piece(4, [[(0, 0), (1, 0), (2, 0), (3, 0)]]),
    "piece_4_square" := Piece(4, [[(0, 0), (1, 0), (0, 1), (1, 1)]]),
    "piece_4_l" := Piece(4, [[(0, 0), (1, 0), (2, 0), (0, 1)]]),
    "piece_4_t" := Piece(4, [[(0, 0), (1, 0), (2, 0), (1, 1)]]),
    "piece_4_z" := Piece(4, [[(0, 0), (1, 0), (1, 1), (2, 1)]]),
    "piece_5_line" := Piece(5, [[(0, 0), (1, 0), (2, 0), (3, 0), (4, 0)]]),
    "piece_5_l" := Piece(5, [[(0, 0), (1, 0), (2, 0), (3, 0), (0, 1)]]),
    "piece_5_t" := Piece(5, [[(0, 0), (1, 0), (2, 0), (1, 1), (1, 2)]]),
    "piece_5_plus" := Piece(5, [[(1, 0), (0, 1), (1, 1), (2, 1), (1, 2)]]),
    "piece_5_u" := Piece(5, [[(0, 0), (2, 0), (0, 1), (1, 1), (2, 1)]]),
    "piece_5_n" := Piece(5, [[(0, 1), (1, 1), (1, 0), (2, 0), (3, 0)]]),
    "piece_5_y" := Piece(5, [[(0, 1), (1, 0), (1, 1), (2, 1), (3, 1)]]),
    "piece_5_p" := Piece(5, [[(0, 0), (1, 0), (0, 1), (1, 1), (0, 2)]]),
    "piece_5_w" := Piece(5, [[(0, 0), (0, 1), (1, 1), (1, 2), (2, 2)]]),
    "piece_5_z" := Piece(5, [[(0, 0), (1, 0), (1, 1), (1, 2), (2, 2)]]),
    "piece_5_v" := Piece(5, [[(0, 0), (0, 1), (0, 2), (1, 2), (2, 2)]]),
    "piece_5_f" := Piece(5, [[(1, 0), (2, 0), (0, 1), (1, 1), (1, 2)]])
  ]

  /** The table's ids in the table's order (the dictionary's insertion order). */
  const PIECE_IDS: seq<string> := [
    "piece_1", "piece_2", "piece_3_line", "piece_3_l",
    "piece_4_line", "piece_4_square", "piece_4_l", "piece_4_t", "piece_4_z",
    "piece_5_line", "piece_5_l", "piece_5_t", "piece_5_plus", "piece_5_u", "piece_5_n",
    "piece_5_y", "piece_5_p", "piece_5_w", "piece_5_z", "piece_5_v", "piece_5_f"
  ]

  /** No element occurs twice. */
  predicate Distinct<T(==)>(s: seq<T>)
  {
    forall i, j :: 0 <= i < j < |s| ==> s[i] != s[j]
  }

  /** Every coordinate of every cell is at least 0. */
  predicate NonNegative(s: Shape)
  {
    forall i :: 0 <= i < |s| ==> s[i].0 >= 0 && s[i].1 >= 0
  }

  /** get_all_piece_ids: the catalog's keys, in table order. */
  function GetAllPieceIds(): (ids: seq<string>)
    ensures |ids| == 21 && Distinct(ids)
    ensures forall id :: id in PIECES <==> id in ids
  {
    PIECE_IDS
  }

  /** get_player_pieces: a new player's hand is the whole catalog. */
  function GetPlayerPieces(): (ids: seq<string>)
    ensures |ids| == |PIECES.Keys| == 21 && Distinct(ids)
    ensures forall id :: id in PIECES <==> id in ids
  {
    CardinalityOfIds(GetAllPieceIds(), PIECES.Keys);
    GetAllPieceIds()
  }

  /** A list without repetitions has as many elements as the set of its elements. */
  lemma {:induction false} CardinalityOfIds(ids: seq<string>, keys: set<string>)
    requires Distinct(ids)
    requires forall id :: id in keys <==> id in ids
    ensures |keys| == |ids|
  {
    if ids != [] {
      var rest := keys - {ids[0]};
      forall id | id in rest ensures id in ids[1..] {
        var k :| 0 <= k < |ids| && ids[k] == id;
        assert k != 0;
      }
      CardinalityOfIds(ids[1..], rest);
    }
  }

  /** The size of a piece of the table; an id the table lacks counts for nothing. */
  function SizeOf(table: map<string, Piece>, id: string): (k: nat)
    ensures id !in table ==> k == 0
    ensures ValidTable(table) && id in table ==> k >= 1
  {
    if id in table then table[id].size else 0
  }

  /** The number of cells in the listed pieces of a table (their sizes summed). */
  function CellTotal(table: map<string, Piece>, ids: seq<string>): nat
  {
    if ids == [] then 0 else SizeOf(table, ids[0]) + CellTotal(table, ids[1..])
  }

  /** Every piece of a hand counts in full towards the hand's total. */
  lemma {:induction false} PieceWithinTotal(table: map<string, Piece>, ids: seq<string>, i: int)
    requires 0 <= i < |ids|
    ensures SizeOf(table, ids[i]) <= CellTotal(table, ids)
    decreases i
  {
    if i > 0 {
      PieceWithinTotal(table, ids[1..], i - 1);
      assert ids[1..][i - 1] == ids[i];
    }
  }

  /** Cell totals add up over concatenation. */
  lemma {:induction false} CellTotalAppend(table: map<string, Piece>, a: seq<string>, b: seq<string>)
    ensures CellTotal(table, a + b) == CellTotal(table, a) + CellTotal(table, b)
  {
    if a == [] {
      assert a + b == b;
    } else {
      CellTotalAppend(table, a[1..], b);
      assert (a + b)[1..] == a[1..] + b;
    }
  }

  /** Reordering a list of pieces does not change its cell total. */
  lemma {:induction false} CellTotalPermutation(table: map<string, Piece>, a: seq<string>, b: seq<string>)
    requires multiset(a) == multiset(b)
    ensures CellTotal(table, a) == CellTotal(table, b)
  {
    if a == [] {
      assert |b| == |multiset(b)|;
    } else {
      var x := a[0];
      assert x in multiset(a);
      assert x in b;
      var j :| 0 <= j < |b| && b[j] == x;
      var rest := b[..j] + b[j + 1..];
      MultisetWithout(b, j);
      assert multiset(a[1..]) == multiset(rest) by {
        assert a == [x] + a[1..];
      }
      CellTotalPermutation(table, a[1..], rest);
      CellTotalSplitAt(table, b, j);
      CellTotalAppend(table, b[..j], b[j + 1..]);
      assert CellTotal(table, rest) == CellTotal(table, b[..j]) + CellTotal(table, b[j + 1..]);
      assert CellTotal(table, a) == SizeOf(table, x) + CellTotal(table, a[1..]);
    }
  }

  /** The cell total of a list is the total before position j, plus the piece at j, plus the total after it. */
  lemma CellTotalSplitAt(table: map<string, Piece>, b: seq<string>, j: int)
    requires 0 <= j < |b|
    ensures CellTotal(table, b) == CellTotal(table, b[..j]) + SizeOf(table, b[j]) + CellTotal(table, b[j + 1..])
  {
    var t := [b[j]] + b[j + 1..];
    assert b == b[..j] + t;
    CellTotalAppend(table, b[..j], t);
    assert t[1..] == b[j + 1..];
  }

  /** Dropping the element at j takes one copy of it out of the multiset. */
  lemma MultisetWithout<T>(s: seq<T>, j: int)
    requires 0 <= j < |s|
    ensures s == s[..j] + ([s[j]] + s[j + 1..])
    ensures multiset(s[..j] + s[j + 1..]) == multiset(s) - multiset{s[j]}
  {
    assert s == s[..j] + ([s[j]] + s[j + 1..]);
  }

  /** Each entry's first shape has `size` distinct cells, all non-negative. */
  predicate WellFormedEntry(p: Piece)
  {
    |p.shapes| > 0 && |p.shapes[0]| == p.size && p.size > 0 &&
    Distinct(p.shapes[0]) && NonNegative(p.shapes[0])
  }

  /** The table's size column: the size of the k-th row. */
  function RowSize(k: int): nat
  {
    if k == 0 then 1 else if k == 1 then 2 else if k < 4 then 3 else if k < 9 then 4 else 5
  }

  /** The table checked three rows at a time: each row is well formed and has the listed size. */
  lemma CatalogRows0()
    ensures forall k :: 0 <= k < 2 ==> WellFormedEntry(PIECES[PIECE_IDS[k]]) && PIECES[PIECE_IDS[k]].size == RowSize(k)
  {
    assert WellFormedEntry(PIECES[PIECE_IDS[0]]) && PIECES[PIECE_IDS[0]].size == 1;
    assert WellFormedEntry(PIECES[PIECE_IDS[1]]) && PIECES[PIECE_IDS[1]].size == 2;
  }

  lemma CatalogRows2()
    ensures forall k :: 2 <= k < 4 ==> WellFormedEntry(PIECES[PIECE_IDS[k]]) && PIECES[PIECE_IDS[k]].size == RowSize(k)
  {
    assert WellFormedEntry(PIECES[PIECE_IDS[2]]) && PIECES[PIECE_IDS[2]].size == 3;
    assert WellFormedEntry(PIECES[PIECE_IDS[3]]) && PIECES[PIECE_IDS[3]].size == 3;
  }

  lemma CatalogRows4()
    ensures forall k :: 4 <= k < 6 ==> WellFormedEntry(PIECES[PIECE_IDS[k]]) && PIECES[PIECE_IDS[k]].size == RowSize(k)
  {
    assert WellFormedEntry(PIECES[PIECE_IDS[4]]) && PIECES[PIECE_IDS[4]].size == 4;
    assert WellFormedEntry(PIECES[PIECE_IDS[5]]) && PIECES[PIECE_IDS[5]].size == 4;
  }

  lemma CatalogRows6()
    ensures forall k :: 6 <= k < 8 ==> WellFormedEntry(PIECES[PIECE_IDS[k]]) && PIECES[PIECE_IDS[k]].size == RowSize(k)
  {
    assert WellFormedEntry(PIECES[PIECE_IDS[6]]) && PIECES[PIECE_IDS[6]].size == 4;
    assert WellFormedEntry(PIECES[PIECE_IDS[7]]) && PIECES[PIECE_IDS[7]].size == 4;
  }

  lemma CatalogRows8()
    ensures forall k :: 8 <= k < 10 ==> WellFormedEntry(PIECES[PIECE_IDS[k]]) && PIECES[PIECE_IDS[k]].size == RowSize(k)
  {
    assert WellFormedEntry(PIECES[PIECE_IDS[8]]) && PIECES[PIECE_IDS[8]].size == 4;
    assert WellFormedEntry(PIECES[PIECE_IDS[9]]) && PIECES[PIECE_IDS[9]].size == 5;
  }

  lemma CatalogRows10()
    ensures forall k :: 10 <= k < 12 ==> WellFormedEntry(PIECES[PIECE_IDS[k]]) && PIECES[PIECE_IDS[k]].size == RowSize(k)
  {
    assert WellFormedEntry(PIECES[PIECE_IDS[10]]) && PIECES[PIECE_IDS[10]].size == 5;
    assert WellFormedEntry(PIECES[PIECE_IDS[11]]) && PIECES[PIECE_IDS[11]].size == 5;
  }

  lemma CatalogRows12()
    ensures forall k :: 12 <= k < 14 ==> WellFormedEntry(PIECES[PIECE_IDS[k]]) && PIECES[PIECE_IDS[k]].size == RowSize(k)
  {
    assert WellFormedEntry(PIECES[PIECE_IDS[12]]) && PIECES[PIECE_IDS[12]].size == 5;
    assert WellFormedEntry(PIECES[PIECE_IDS[13]]) && PIECES[PIECE_IDS[13]].size == 5;
  }

  lemma CatalogRows14()
    ensures forall k :: 14 <= k < 16 ==> WellFormedEntry(PIECES[PIECE_IDS[k]]) && PIECES[PIECE_IDS[k]].size == RowSize(k)
  {
    assert WellFormedEntry(PIECES[PIECE_IDS[14]]) && PIECES[PIECE_IDS[14]].size == 5;
    assert WellFormedEntry(PIECES[PIECE_IDS[15]]) && PIECES[PIECE_IDS[15]].size == 5;
  }

  lemma CatalogRows16()
    ensures forall k :: 16 <= k < 18 ==> WellFormedEntry(PIECES[PIECE_IDS[k]]) && PIECES[PIECE_IDS[k]].size == RowSize(k)
  {
    assert WellFormedEntry(PIECES[PIECE_IDS[16]]) && PIECES[PIECE_IDS[16]].size == 5;
    assert WellFormedEntry(PIECES[PIECE_IDS[17]]) && PIECES[PIECE_IDS[17]].size == 5;
  }

  lemma CatalogRows18()
    ensures forall k :: 18 <= k < 20 ==> WellFormedEntry(PIECES[PIECE_IDS[k]]) && PIECES[PIECE_IDS[k]].size == RowSize(k)
  {
    assert WellFormedEntry(PIECES[PIECE_IDS[18]]) && PIECES[PIECE_IDS[18]].size == 5;
    assert WellFormedEntry(PIECES[PIECE_IDS[19]]) && PIECES[PIECE_IDS[19]].size == 5;
  }

  lemma CatalogRows20()
    ensures forall k :: 20 <= k < 21 ==> WellFormedEntry(PIECES[PIECE_IDS[k]]) && PIECES[PIECE_IDS[k]].size == RowSize(k)
  {
    assert WellFormedEntry(PIECES[PIECE_IDS[20]]) && PIECES[PIECE_IDS[20]].size == 5;
  }

  /** Every row of the table is well formed and has the size the size column lists. */
  lemma CatalogRows()
    ensures forall k :: 0 <= k < |PIECE_IDS| ==> WellFormedEntry(PIECES[PIECE_IDS[k]]) && PIECES[PIECE_IDS[k]].size == RowSize(k)
  {
    CatalogRows0(); CatalogRows2(); CatalogRows4(); CatalogRows6(); CatalogRows8(); CatalogRows10();
    CatalogRows12(); CatalogRows14(); CatalogRows16(); CatalogRows18(); CatalogRows20();
  }

  /** The table holds 21 pieces whose sizes sum to 89 cells. */
  lemma CatalogTotal()
    ensures |PIECES.Keys| == 21
    ensures CellTotal(PIECES, PIECE_IDS) == 89
  {
    var ids := GetPlayerPieces();
    CatalogRows();
    CellTotalOfRows(PIECES, PIECE_IDS);
  }

  /** Any 21 ids whose sizes follow the size column hold 89 cells. */
  lemma CellTotalOfRows(table: map<string, Piece>, ids: seq<string>)
    requires |ids| == 21
    requires forall k :: 0 <= k < |ids| ==> SizeOf(table, ids[k]) == RowSize(k)
    ensures CellTotal(table, ids) == 89
  {
    CellTotalRun(table, ids, 9, 21, 5);
    CellTotalRun(table, ids, 4, 9, 4);
    CellTotalRun(table, ids, 2, 4, 3);
    CellTotalRun(table, ids, 1, 2, 2);
    CellTotalRun(table, ids, 0, 1, 1);
    assert ids[0..] == ids;
  }

  /** A run ids[lo..hi] of pieces of one size c adds c cells per piece to what follows it. */
  lemma {:induction false} CellTotalRun(table: map<string, Piece>, ids: seq<string>, lo: nat, hi: nat, c: nat)
    requires lo <= hi <= |ids|
    requires forall k :: lo <= k < hi ==> SizeOf(table, ids[k]) == c
    ensures CellTotal(table, ids[lo..]) == c * (hi - lo) + CellTotal(table, ids[hi..])
    decreases hi - lo
  {
    if lo < hi {
      assert ids[lo..][1..] == ids[lo + 1..];
      assert CellTotal(table, ids[lo..]) == SizeOf(table, ids[lo]) + CellTotal(table, ids[lo + 1..]);
      CellTotalRun(table, ids, lo + 1, hi, c);
      assert c * (hi - lo) == c + c * (hi - (lo + 1));
    }
  }

  /** Every entry of a piece table is well formed. */
  predicate ValidTable(table: map<string, Piece>)
  {
    forall id :: id in table ==> WellFormedEntry(table[id])
  }

  /** Every entry of the table is well formed. */
  lemma CatalogEntries()
    ensures ValidTable(PIECES)
  {
    CatalogRows();
    forall id | id in PIECES ensures WellFormedEntry(PIECES[id]) {
      var ids := GetAllPieceIds();
      var k :| 0 <= k < |PIECE_IDS| && PIECE_IDS[k] == id;
    }
  }

  // ---------------------------------------------------------------- transforms

  /** One quarter turn of a cell: (x, y) -> (-y, x). */
  function QuarterTurn(c: Cell): (d: Cell)
    ensures d.0 * d.0 + d.1 * d.1 == c.0 * c.0 + c.1 * c.1
    ensures d == c <==> c == (0, 0)
  {
    (-c.1, c.0)
  }

  /**
   * rotate_piece: 90, 180 and 270 apply the fixed rotation formulas cell by cell;
   * 0 and every other angle give the list back unchanged.
   */
  function Rotate(s: Shape, rotation: int): (r: Shape)
    ensures |r| == |s|
  {
    if rotation == 0 then s
    else if rotation == 90 then seq(|s|, i requires 0 <= i < |s| => (-s[i].1, s[i].0))
    else if rotation == 180 then seq(|s|, i requires 0 <= i < |s| => (-s[i].0, -s[i].1))
    else if rotation == 270 then seq(|s|, i requires 0 <= i < |s| => (s[i].1, -s[i].0))
    else s
  }

  /** flip_piece: a horizontal flip negates x, a vertical one negates y. */
  function FlipPiece(s: Shape, horizontal: bool): (r: Shape)
    ensures |r| == |s|
  {
    if horizontal then seq(|s|, i requires 0 <= i < |s| => (-s[i].0, s[i].1))
    else seq(|s|, i requires 0 <= i < |s| => (s[i].0, -s[i].1))
  }

  /** The smallest x of a non-empty shape. */
  function MinX(s: Shape): (m: int)
    requires |s| > 0
    ensures forall i :: 0 <= i < |s| ==> m <= s[i].0
    ensures exists i :: 0 <= i < |s| && s[i].0 == m
  {
    if |s| == 1 then s[0].0
    else
      var rest := MinX(s[1..]);
      assert forall i :: 1 <= i < |s| ==> s[1..][i - 1] == s[i];
      if s[0].0 <= rest then s[0].0 else rest
  }

  /** The smallest y of a non-empty shape. */
  function MinY(s: Shape): (m: int)
    requires |s| > 0
    ensures forall i :: 0 <= i < |s| ==> m <= s[i].1
    ensures exists i :: 0 <= i < |s| && s[i].1 == m
  {
    if |s| == 1 then s[0].1
    else
      var rest := MinY(s[1..]);
      assert forall i :: 1 <= i < |s| ==> s[1..][i - 1] == s[i];
      if s[0].1 <= rest then s[0].1 else rest
  }

  /** The largest x of a non-empty shape. */
  function MaxX(s: Shape): (m: int)
    requires |s| > 0
    ensures forall i :: 0 <= i < |s| ==> s[i].0 <= m
    ensures exists i :: 0 <= i < |s| && s[i].0 == m
  {
    if |s| == 1 then s[0].0
    else
      var rest := MaxX(s[1..]);
      assert forall i :: 1 <= i < |s| ==> s[1..][i - 1] == s[i];
      if s[0].0 >= rest then s[0].0 else rest
  }

  /** The largest y of a non-empty shape. */
  function MaxY(s: Shape): (m: int)
    requires |s| > 0
    ensures forall i :: 0 <= i < |s| ==> s[i].1 <= m
    ensures exists i :: 0 <= i < |s| && s[i].1 == m
  {
    if |s| == 1 then s[0].1
    else
      var rest := MaxY(s[1..]);
      assert forall i :: 1 <= i < |s| ==> s[1..][i - 1] == s[i];
      if s[0].1 >= rest then s[0].1 else rest
  }

  /** Every cell moved by (dx, dy). */
  function Translate(s: Shape, dx: int, dy: int): (r: Shape)
    ensures |r| == |s|
  {
    seq(|s|, i requires 0 <= i < |s| => (s[i].0 + dx, s[i].1 + dy))
  }

  /**
   * normalize_piece: the same shape moved so that its smallest x and smallest y
   * are both 0. Python's min() raises on an empty list, hence the precondition.
   */
  function Normalize(s: Shape): (r: Shape)
    requires |s| > 0
    ensures |r| == |s|
    ensures forall i :: 0 <= i < |s| ==>
      r[i].0 - r[0].0 == s[i].0 - s[0].0 && r[i].1 - r[0].1 == s[i].1 - s[0].1
    ensures MinX(r) == 0 && MinY(r) == 0 && NonNegative(r)
  {
    var r := Translate(s, -MinX(s), -MinY(s));
    MinOfTranslate(s, -MinX(s), -MinY(s));
    r
  }

  /** Moving a shape moves its minima by the same amount. */
  lemma {:induction false} MinOfTranslate(s: Shape, dx: int, dy: int)
    requires |s| > 0
    ensures MinX(Translate(s, dx, dy)) == MinX(s) + dx
    ensures MinY(Translate(s, dx, dy)) == MinY(s) + dy
  {
    var t := Translate(s, dx, dy);
    var i :| 0 <= i < |s| && s[i].0 == MinX(s);
    var j :| 0 <= j < |s| && s[j].1 == MinY(s);
    assert t[i].0 == MinX(s) + dx && t[j].1 == MinY(s) + dy;
  }

  /**
   * get_transformed_piece over a given piece table: None for an unknown id;
   * otherwise the first shape, flipped horizontally when asked, then rotated,
   * then normalised, which leaves size distinct cells at non-negative coordinates.
   */
  function TransformIn(table: map<string, Piece>, pieceId: string, rotation: int, flip: bool): (r: Option<Shape>)
    requires ValidTable(table)
    ensures r.None? <==> pieceId !in table
    ensures r.Some? ==> |r.value| == table[pieceId].size && Distinct(r.value) && NonNegative(r.value)
  {
    if pieceId !in table then None
    else
      var base := table[pieceId].shapes[0];
      TransformKeepsCells(base, rotation, flip);
      var flipped := if flip then FlipPiece(base, true) else base;
      Some(Normalize(Rotate(flipped, rotation)))
  }

  /** get_transformed_piece: the transform over the fixed table. */
  function GetTransformedPiece(pieceId: string, rotation: int, flip: bool): (r: Option<Shape>)
    ensures r.None? <==> pieceId !in PIECES
  {
    CatalogEntries();
    TransformIn(PIECES, pieceId, rotation, flip)
  }

  /**
   * get_piece_bounds: the tightest box around a non-empty shape,
   * as (min_x, max_x, min_y, max_y).
   */
  function GetPieceBounds(s: Shape): (b: (int, int, int, int))
    requires |s| > 0
    ensures b.0 <= b.1 && b.2 <= b.3
    ensures forall i :: 0 <= i < |s| ==> b.0 <= s[i].0 <= b.1 && b.2 <= s[i].1 <= b.3
    ensures (exists i :: 0 <= i < |s| && s[i].0 == b.0) && (exists i :: 0 <= i < |s| && s[i].0 == b.1)
    ensures (exists i :: 0 <= i < |s| && s[i].1 == b.2) && (exists i :: 0 <= i < |s| && s[i].1 == b.3)
  {
    (MinX(s), MaxX(s), MinY(s), MaxY(s))
  }

  // ---------------------------------------------------------------- laws

  /** Any angle other than 90, 180 and 270 leaves the shape as it is. */
  lemma RotateOtherAngles(s: Shape, rotation: int)
    requires rotation != 90 && rotation != 180 && rotation != 270
    ensures Rotate(s, rotation) == s
  {
  }

  /** A half turn is two quarter turns. */
  lemma RotateHalfIsTwoQuarters(s: Shape)
    ensures Rotate(s, 180) == Rotate(Rotate(s, 90), 90)
  {
    var a, b := Rotate(s, 180), Rotate(Rotate(s, 90), 90);
    assert forall i :: 0 <= i < |s| ==> a[i] == b[i];
  }

  /** A three-quarter turn is three quarter turns. */
  lemma RotateThreeQuartersIsThreeQuarters(s: Shape)
    ensures Rotate(s, 270) == Rotate(Rotate(Rotate(s, 90), 90), 90)
  {
    var a, b := Rotate(s, 270), Rotate(Rotate(Rotate(s, 90), 90), 90);
    assert forall i :: 0 <= i < |s| ==> a[i] == b[i];
  }

  /** Four quarter turns give back the original list. */
  lemma FourQuarterTurns(s: Shape)
    ensures Rotate(Rotate(Rotate(Rotate(s, 90), 90), 90), 90) == s
  {
    var r := Rotate(Rotate(Rotate(Rotate(s, 90), 90), 90), 90);
    assert forall i :: 0 <= i < |s| ==> r[i] == s[i];
  }

  /** Flipping twice in the same direction is the identity. */
  lemma FlipInvolution(s: Shape, horizontal: bool)
    ensures FlipPiece(FlipPiece(s, horizontal), horizontal) == s
  {
    var r := FlipPiece(FlipPiece(s, horizontal), horizontal);
    assert forall i :: 0 <= i < |s| ==> r[i] == s[i];
  }

  /** Normalising an already normalised shape changes nothing. */
  lemma NormalizeIdempotent(s: Shape)
    requires |s| > 0
    ensures Normalize(Normalize(s)) == Normalize(s)
  {
    var n := Normalize(s);
    var nn := Normalize(n);
    assert forall i :: 0 <= i < |s| ==> nn[i] == n[i];
  }

  /** Normalisation forgets where the shape was: translating first changes nothing. */
  lemma NormalizeTranslationInvariant(s: Shape, dx: int, dy: int)
    requires |s| > 0
    ensures Normalize(Translate(s, dx, dy)) == Normalize(s)
  {
    var a, b := Normalize(Translate(s, dx, dy)), Normalize(s);
    MinOfTranslate(s, dx, dy);
    assert forall i :: 0 <= i < |s| ==> a[i] == b[i];
  }

  /** Rotation maps distinct cells to distinct cells. */
  lemma RotateKeepsDistinct(s: Shape, rotation: int)
    requires Distinct(s)
    ensures Distinct(Rotate(s, rotation))
  {
  }

  /** Flipping maps distinct cells to distinct cells. */
  lemma FlipKeepsDistinct(s: Shape, horizontal: bool)
    requires Distinct(s)
    ensures Distinct(FlipPiece(s, horizontal))
  {
  }

  /** Translation maps distinct cells to distinct cells. */
  lemma TranslateKeepsDistinct(s: Shape, dx: int, dy: int)
    requires Distinct(s)
    ensures Distinct(Translate(s, dx, dy))
  {
  }

  /** Normalisation maps distinct cells to distinct cells. */
  lemma NormalizeKeepsDistinct(s: Shape)
    requires |s| > 0 && Distinct(s)
    ensures Distinct(Normalize(s))
  {
    TranslateKeepsDistinct(s, -MinX(s), -MinY(s));
  }

  /** Flip, rotate and normalise keep a shape's length, distinctness and make it non-negative. */
  lemma TransformKeepsCells(base: Shape, rotation: int, flip: bool)
    requires |base| > 0 && Distinct(base)
    ensures var rotated := Rotate(if flip then FlipPiece(base, true) else base, rotation);
      |Normalize(rotated)| == |base| && Distinct(Normalize(rotated)) && NonNegative(Normalize(rotated))
  {
    var flipped := if flip then FlipPiece(base, true) else base;
    if flip { FlipKeepsDistinct(base, true); }
    RotateKeepsDistinct(flipped, rotation);
    NormalizeKeepsDistinct(Rotate(flipped, rotation));
  }

  /** A known piece, in any orientation, has exactly `size` distinct non-negative cells. */
  lemma TransformedPieceFacts(pieceId: string, rotation: int, flip: bool)
    requires pieceId in PIECES
    ensures GetTransformedPiece(pieceId, rotation, flip).Some?
    ensures var s := GetTransformedPiece(pieceId, rotation, flip).value;
      |s| == PIECES[pieceId].size && Distinct(s) && NonNegative(s)
  {
    CatalogEntries();
  }
}
