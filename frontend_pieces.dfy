/**
 * The browser's copy of the piece geometry (frontend/src/utils/pieces.js): its own
 * catalog of first shapes, rotation by repeated quarter turns, a horizontal flip,
 * normalisation and the bounding box. Each is compared with the server's version
 * in module Pieces.
 */
module FrontendPieces {
  import opened Wrappers
  import Pieces

  type Cell = Pieces.Cell
  type Shape = Pieces.Shape

  /** The browser's catalog: one shape per id (the display name is not modelled). */
  const PIECES: map<string, Shape> := map[
    "piece_1" := [(0, 0)],
    "piece_2" := [(0, 0), (1, 0)],
    "piece_3_line" := [(0, 0), (1, 0), (2, 0)],
    "piece_3_l" := [(0, 0), (1, 0), (0, 1)],
    "piece_4_line" := [(0, 0), (1, 0), (2, 0), (3, 0)],
    "piece_4_square" := [(0, 0), (1, 0), (0, 1), (1, 1)],
    "piece_4_l" := [(0, 0), (1, 0), (2, 0), (0, 1)],
    "piece_4_t" := [(0, 0), (1, 0), (2, 0), (1, 1)],
    "piece_4_z" := [(0, 0), (1, 0), (1, 1), (2, 1)],
    "piece_5_line" := [(0, 0), (1, 0), (2, 0), (3, 0), (4, 0)],
    "piece_5_l" := [(0, 0), (1, 0), (2, 0), (3, 0), (0, 1)],
    "piece_5_t" := [(0, 0), (1, 0), (2, 0), (1, 1), (1, 2)],
    "piece_5_plus" := [(1, 0), (0, 1), (1, 1), (2, 1), (1, 2)],
    "piece_5_u" := [(0, 0), (2, 0), (0, 1), (1, 1), (2, 1)],
    "piece_5_n" := [(0, 1), (1, 1), (1, 0), (2, 0), (3, 0)],
    "piece_5_y" := [(0, 1), (1, 0), (1, 1), (2, 1), (3, 1)],
    "piece_5_p" := [(0, 0), (1, 0), (0, 1), (1, 1), (0, 2)],
    "piece_5_w" := [(0, 0), (0, 1), (1, 1), (1, 2), (2, 2)],
    "piece_5_z" := [(0, 0), (1, 0), (1, 1), (1, 2), (2, 2)],
    "piece_5_v" := [(0, 0), (0, 1), (0, 2), (1, 2), (2, 2)],
    "piece_5_f" := [(1, 0), (2, 0), (0, 1), (1, 1), (1, 2)]
  ]

  /** The two catalogs hold the same ids, and each browser shape is the server's first shape. */
  lemma CatalogsAgree()
    ensures PIECES.Keys == Pieces.PIECES.Keys
    ensures forall id :: id in PIECES ==> PIECES[id] == Pieces.PIECES[id].shapes[0]
  {
  }

  // ---------------------------------------------------------------- rotation

  /** One quarter turn of every cell. */
  function TurnAll(s: Shape): (r: Shape)
    ensures |r| == |s|
    ensures Pieces.Distinct(s) <==> Pieces.Distinct(r)
  {
    var r := seq(|s|, i requires 0 <= i < |s| => Pieces.QuarterTurn(s[i]));
    assert forall i :: 0 <= i < |s| ==> s[i] == (r[i].1, -r[i].0);
    r
  }

  /** k quarter turns, one after the other. */
  function Turned(s: Shape, k: nat): (r: Shape)
    ensures |r| == |s|
    ensures Pieces.Distinct(s) <==> Pieces.Distinct(r)
    decreases k
  {
    if k == 0 then s else TurnAll(Turned(s, k - 1))
  }

  /**
   * How many passes the rotation loop makes: the number of counters i >= 0 with
   * i < rotation / 90, that is, with 90 * i < rotation.
   */
  function TurnCount(rotation: int): (c: nat)
    ensures 90 * c >= rotation
    ensures c == 0 || 90 * (c - 1) < rotation
  {
    if rotation <= 0 then 0 else (rotation + 89) / 90
  }

  /**
   * rotatePiece: 0 gives the list back; otherwise the quarter turn (x, y) -> (-y, x)
   * is applied once for every counter below rotation / 90.
   */
  method RotatePiece(coords: Shape, rotation: int) returns (result: Shape)
    ensures result == Turned(coords, TurnCount(rotation))
  {
    if rotation == 0 {
      return coords;
    }
    result := coords;
    var i: nat := 0;
    while 90 * i < rotation
      invariant i <= TurnCount(rotation)
      invariant result == Turned(coords, i)
      decreases rotation - 90 * i
    {
      result := TurnAll(result);
      i := i + 1;
    }
  }

  /** One browser quarter turn is the server's rotation by 90. */
  lemma TurnAllIsRotate90(s: Shape)
    ensures TurnAll(s) == Pieces.Rotate(s, 90)
  {
    var a, b := TurnAll(s), Pieces.Rotate(s, 90);
    assert forall i :: 0 <= i < |s| ==> a[i] == b[i];
  }

  /** Four quarter turns give the shape back. */
  lemma FullTurn(s: Shape)
    ensures Turned(s, 4) == s
  {
    TurnAllIsRotate90(s);
    TurnAllIsRotate90(TurnAll(s));
    TurnAllIsRotate90(TurnAll(TurnAll(s)));
    TurnAllIsRotate90(TurnAll(TurnAll(TurnAll(s))));
    Pieces.FourQuarterTurns(s);
  }

  /**
   * For 0, 90, 180 and 270 degrees (and a full turn of 360) the browser's rotation
   * gives the same list as the server's rotate_piece.
   */
  lemma RotationAgrees(s: Shape, rotation: int)
    requires rotation == 0 || rotation == 90 || rotation == 180 || rotation == 270 || rotation == 360
    ensures Turned(s, TurnCount(rotation)) == Pieces.Rotate(s, rotation)
  {
    TurnAllIsRotate90(s);
    TurnAllIsRotate90(TurnAll(s));
    TurnAllIsRotate90(TurnAll(TurnAll(s)));
    if rotation == 180 {
      Pieces.RotateHalfIsTwoQuarters(s);
    } else if rotation == 270 {
      assert Turned(s, 3) == TurnAll(TurnAll(TurnAll(s)));
      Pieces.RotateThreeQuartersIsThreeQuarters(s);
    } else if rotation == 360 {
      FullTurn(s);
    }
  }

  /**
   * Off the right angles the two sides part: 45 degrees is one quarter turn in the
   * browser, while the server leaves the shape as it is.
   */
  lemma OffGridRotationDiffers()
    ensures Turned([(1, 0)], TurnCount(45)) == [(0, 1)]
    ensures Pieces.Rotate([(1, 0)], 45) == [(1, 0)]
  {
    assert TurnCount(45) == 1;
    assert TurnAll([(1, 0)])[0] == (0, 1);
  }

  // ---------------------------------------------------------------- flip and normalise

  /** flipPiece: the list itself when no flip is asked for, otherwise x negated. */
  function FlipPiece(coords: Shape, flip: bool): (r: Shape)
    ensures |r| == |coords|
  {
    if !flip then coords
    else seq(|coords|, i requires 0 <= i < |coords| => (-coords[i].0, coords[i].1))
  }

  /** The browser's flip is the server's horizontal flip, and flipping twice undoes it. */
  lemma FlipAgrees(s: Shape)
    ensures FlipPiece(s, true) == Pieces.FlipPiece(s, true)
    ensures FlipPiece(FlipPiece(s, true), true) == s
  {
    var a, b := FlipPiece(s, true), Pieces.FlipPiece(s, true);
    assert forall i :: 0 <= i < |s| ==> a[i] == b[i];
    Pieces.FlipInvolution(s, true);
  }

  /**
   * normalizeCoords: the shape moved so that its smallest x and smallest y are 0.
   * An empty list maps to an empty list (Math.min of nothing is never used).
   */
  function NormalizeCoords(coords: Shape): (r: Shape)
    ensures |r| == |coords|
    ensures |coords| > 0 ==> r == Pieces.Normalize(coords)
    ensures |coords| > 0 ==> Pieces.MinX(r) == 0 && Pieces.MinY(r) == 0 && Pieces.NonNegative(r)
  {
    if |coords| == 0 then []
    else Pieces.Translate(coords, -Pieces.MinX(coords), -Pieces.MinY(coords))
  }

  /** Normalising twice is normalising once. */
  lemma NormalizeCoordsIdempotent(s: Shape)
    ensures NormalizeCoords(NormalizeCoords(s)) == NormalizeCoords(s)
  {
    if |s| > 0 {
      Pieces.NormalizeIdempotent(s);
    }
  }

  // ---------------------------------------------------------------- transform

  /** The transform getTransformedPiece computes: flip if asked, rotate, normalise. */
  function TransformedPiece(pieceId: string, rotation: int, flip: bool): (r: Option<Shape>)
    ensures r.None? <==> pieceId !in PIECES
  {
    if pieceId !in PIECES then None
    else Some(NormalizeCoords(Turned(FlipPiece(PIECES[pieceId], flip), TurnCount(rotation))))
  }

  /** getTransformedPiece: null for an unknown id, otherwise the shape flipped, rotated and normalised. */
  method GetTransformedPiece(pieceId: string, rotation: int, flip: bool) returns (r: Option<Shape>)
    ensures r == TransformedPiece(pieceId, rotation, flip)
  {
    if pieceId !in PIECES {
      return None;
    }
    var coords := PIECES[pieceId];
    if flip {
      coords := FlipPiece(coords, true);
    }
    coords := RotatePiece(coords, rotation);
    coords := NormalizeCoords(coords);
    return Some(coords);
  }

  /**
   * For every id, every right angle and either flip, the browser draws exactly the
   * cells the server will check: both transforms give the same list.
   */
  lemma TransformsAgree(pieceId: string, rotation: int, flip: bool)
    requires rotation == 0 || rotation == 90 || rotation == 180 || rotation == 270
    ensures TransformedPiece(pieceId, rotation, flip) == Pieces.GetTransformedPiece(pieceId, rotation, flip)
  {
    CatalogsAgree();
    Pieces.CatalogEntries();
    if pieceId in PIECES {
      var base := PIECES[pieceId];
      FlipAgrees(base);
      var flipped := FlipPiece(base, flip);
      RotationAgrees(flipped, rotation);
    }
  }

  // ---------------------------------------------------------------- bounds

  /** The box getPieceBounds reports. */
  datatype Bounds = Bounds(minX: int, maxX: int, minY: int, maxY: int, width: int, height: int)

  /**
   * getPieceBounds: the tightest box around the cells and its width and height.
   * For an empty list the script reports infinite extremes; that is None here.
   */
  function GetPieceBounds(coords: Shape): (b: Option<Bounds>)
    ensures b.None? <==> coords == []
    ensures b.Some? ==> b.value.width >= 1 && b.value.height >= 1
    ensures b.Some? ==> b.value.width == b.value.maxX - b.value.minX + 1
    ensures b.Some? ==> b.value.height == b.value.maxY - b.value.minY + 1
    ensures b.Some? ==> (b.value.minX, b.value.maxX, b.value.minY, b.value.maxY) == Pieces.GetPieceBounds(coords)
  {
    if coords == [] then None
    else
      var (minX, maxX, minY, maxY) := Pieces.GetPieceBounds(coords);
      Some(Bounds(minX, maxX, minY, maxY, maxX - minX + 1, maxY - minY + 1))
  }
}
