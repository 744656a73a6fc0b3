/**
 * Rasterisation of the grid: every set cell becomes one filled square block
 * of `avatar_size // size` pixels, offset by the padding. The pixel buffer
 * itself belongs to the image library; the model records the rectangles the
 * generator asks it to fill.
 */
module PixelRaster {
  import opened Arithmetic
  import opened PixelGrid

  /** An inclusive pixel rectangle (x1, y1)-(x2, y2), as passed to the drawing call. */
  datatype Rect = Rect(x1: int, y1: int, x2: int, y2: int)

  predicate Covers(rect: Rect, x: int, y: int) {
    rect.x1 <= x <= rect.x2 && rect.y1 <= y <= rect.y2
  }

  /** `avatar_size // size`: the widest block such that `size` blocks fit in the avatar. */
  function BlockSize(avatarSize: nat, size: nat): (bs: nat)
    requires size > 0
    ensures bs * size <= avatarSize < bs * size + size
  {
    avatarSize / size
  }

  /** The rectangle drawn for cell (row, col); it is `bs` pixels wide and high. */
  function CellRect(padding: int, bs: int, row: int, col: int): (rect: Rect)
    ensures rect.x2 - rect.x1 == bs - 1 && rect.y2 - rect.y1 == bs - 1
  {
    Rect(padding + col * bs, padding + row * bs, padding + (col + 1) * bs - 1, padding + (row + 1) * bs - 1)
  }

  /** The pixels of cell (row, col) are those whose block coordinates are (row, col). */
  lemma CellRectPixels(padding: int, bs: nat, row: nat, col: nat, x: int, y: int)
    ensures Covers(CellRect(padding, bs, row, col), x, y) <==>
            bs > 0 && padding <= x && padding <= y && (x - padding) / bs == col && (y - padding) / bs == row
  {
    MulMonotone(0, col, bs);
    MulMonotone(0, row, bs);
    assert (col + 1) * bs == col * bs + bs && (row + 1) * bs == row * bs + bs;
    if bs > 0 && padding <= x && padding <= y {
      InBlock(x - padding, col, bs);
      InBlock(y - padding, row, bs);
    }
  }

  /** Every block of a cell inside the grid lies inside the avatar area, hence inside the padded canvas. */
  lemma CellRectInCanvas(avatarSize: nat, size: nat, padding: nat, row: nat, col: nat, x: int, y: int)
    requires 0 < size && row < size && col < size
    requires Covers(CellRect(padding, BlockSize(avatarSize, size), row, col), x, y)
    ensures padding <= x < padding + avatarSize && padding <= y < padding + avatarSize
    ensures 0 <= x < avatarSize + 2 * padding && 0 <= y < avatarSize + 2 * padding
  {
    var bs := BlockSize(avatarSize, size);
    CellRectPixels(padding, bs, row, col, x, y);
    BelowBlocks(x - padding, size, bs);
    BelowBlocks(y - padding, size, bs);
  }

  /** Blocks of distinct cells share no pixel. */
  lemma CellRectsDisjoint(padding: int, bs: nat, r1: nat, c1: nat, r2: nat, c2: nat, x: int, y: int)
    requires r1 != r2 || c1 != c2
    ensures !(Covers(CellRect(padding, bs, r1, c1), x, y) && Covers(CellRect(padding, bs, r2, c2), x, y))
  {
    CellRectPixels(padding, bs, r1, c1, x, y);
    CellRectPixels(padding, bs, r2, c2, x, y);
  }

  /** Pixels at or beyond `padding + size * bs` (the truncation remainder) belong to no block. */
  lemma BeyondGridUncovered(padding: int, bs: nat, size: nat, row: nat, col: nat, x: int, y: int)
    requires row < size && col < size
    requires x >= padding + size * bs || y >= padding + size * bs
    ensures !Covers(CellRect(padding, bs, row, col), x, y)
  {
    MulMonotone(col + 1, size, bs);
    MulMonotone(row + 1, size, bs);
  }

  /** Whether some rectangle of the list covers pixel (x, y). */
  predicate Covered(rects: seq<Rect>, x: int, y: int) {
    rects != [] && (Covered(rects[..|rects| - 1], x, y) || Covers(rects[|rects| - 1], x, y))
  }

  lemma {:induction false} CoveredAppend(a: seq<Rect>, b: seq<Rect>, x: int, y: int)
    ensures Covered(a + b, x, y) <==> Covered(a, x, y) || Covered(b, x, y)
    decreases |b|
  {
    if b != [] {
      assert (a + b)[..|a + b| - 1] == a + b[..|b| - 1];
      CoveredAppend(a, b[..|b| - 1], x, y);
    } else {
      assert a + b == a;
    }
  }

  /** The rectangles drawn for one matrix row, left to right. */
  function RowRects(cells: seq<bool>, row: nat, padding: int, bs: nat): seq<Rect> {
    if cells == [] then []
    else RowRects(cells[..|cells| - 1], row, padding, bs)
         + (if cells[|cells| - 1] then [CellRect(padding, bs, row, |cells| - 1)] else [])
  }

  /** The rectangles drawn for a matrix, row by row. */
  function GridRects(m: seq<seq<bool>>, padding: int, bs: nat): seq<Rect> {
    if m == [] then []
    else GridRects(m[..|m| - 1], padding, bs) + RowRects(m[|m| - 1], |m| - 1, padding, bs)
  }

  /** The number of set cells of a matrix. */
  function SetCells(m: seq<seq<bool>>): nat {
    if m == [] then 0 else SetCells(m[..|m| - 1]) + multiset(m[|m| - 1])[true]
  }

  /** A row contributes one rectangle per set cell. */
  lemma {:induction false} RowRectsCount(cells: seq<bool>, row: nat, padding: int, bs: nat)
    ensures |RowRects(cells, row, padding, bs)| == multiset(cells)[true]
    decreases |cells|
  {
    if cells != [] {
      assert cells == cells[..|cells| - 1] + [cells[|cells| - 1]];
      RowRectsCount(cells[..|cells| - 1], row, padding, bs);
    }
  }

  /** The matrix contributes one rectangle per set cell, nothing more. */
  lemma {:induction false} GridRectsCount(m: seq<seq<bool>>, padding: int, bs: nat)
    ensures |GridRects(m, padding, bs)| == SetCells(m)
    decreases |m|
  {
    if m != [] {
      GridRectsCount(m[..|m| - 1], padding, bs);
      RowRectsCount(m[|m| - 1], |m| - 1, padding, bs);
    }
  }

  lemma {:induction false} RowRectsPixels(cells: seq<bool>, row: nat, padding: int, bs: nat, x: int, y: int)
    ensures Covered(RowRects(cells, row, padding, bs), x, y) <==>
            bs > 0 && padding <= x && padding <= y && (y - padding) / bs == row &&
            (x - padding) / bs < |cells| && cells[(x - padding) / bs]
    decreases |cells|
  {
    if cells != [] {
      var last := |cells| - 1;
      var front := RowRects(cells[..last], row, padding, bs);
      var tail: seq<Rect> := if cells[last] then [CellRect(padding, bs, row, last)] else [];
      RowRectsPixels(cells[..last], row, padding, bs, x, y);
      CoveredAppend(front, tail, x, y);
      CellRectPixels(padding, bs, row, last, x, y);
      if tail != [] {
        assert tail[..0] == [];
      }
    }
  }

  /** Pixel (x, y) falls in a block position of `m` whose cell is set. */
  predicate CellAt(m: seq<seq<bool>>, padding: int, bs: nat, x: int, y: int) {
    bs > 0 && padding <= x && padding <= y &&
    (y - padding) / bs < |m| && (x - padding) / bs < |m[(y - padding) / bs]| &&
    m[(y - padding) / bs][(x - padding) / bs]
  }

  /** Pixel (x, y) lies in the area `size` whole blocks span, on both axes. */
  predicate InGridArea(size: nat, bs: nat, padding: int, x: int, y: int) {
    padding <= x < padding + size * bs && padding <= y < padding + size * bs
  }

  lemma {:induction false} GridRectsPixels(m: seq<seq<bool>>, padding: int, bs: nat, x: int, y: int)
    ensures Covered(GridRects(m, padding, bs), x, y) <==> CellAt(m, padding, bs, x, y)
    decreases |m|
  {
    if m != [] {
      var last := |m| - 1;
      GridRectsPixels(m[..last], padding, bs, x, y);
      RowRectsPixels(m[last], last, padding, bs, x, y);
      CoveredAppend(GridRects(m[..last], padding, bs), RowRects(m[last], last, padding, bs), x, y);
    }
  }

  /**
   * What the drawn image shows: a pixel is painted in the foreground exactly
   * when it lies in the grid area `[padding, padding + size*bs)` on both axes
   * and the cell it falls in is set; everything else, including the
   * truncation remainder, keeps the background.
   */
  lemma PaintedPixels(m: seq<seq<bool>>, size: nat, avatarSize: nat, padding: int, x: int, y: int)
    requires 0 < size && IsSquare(m, size)
    ensures var bs := BlockSize(avatarSize, size);
            Covered(GridRects(m, padding, bs), x, y) <==>
            InGridArea(size, bs, padding, x, y) && CellAt(m, padding, bs, x, y)
  {
    var bs := BlockSize(avatarSize, size);
    GridRectsPixels(m, padding, bs, x, y);
    SquareCellArea(m, size, bs, padding, x, y);
  }

  /** In a square matrix, a set cell's pixel lies in the grid area. */
  lemma SquareCellArea(m: seq<seq<bool>>, size: nat, bs: nat, padding: int, x: int, y: int)
    requires IsSquare(m, size)
    ensures CellAt(m, padding, bs, x, y) ==> InGridArea(size, bs, padding, x, y)
  {
    if CellAt(m, padding, bs, x, y) {
      var cy := (y - padding) / bs;
      assert cy < size && |m[cy]| == size;
      BelowBlocks(x - padding, size, bs);
      BelowBlocks(y - padding, size, bs);
    }
  }

  /**
   * The drawing loops of `generate`: rows top to bottom, columns left to
   * right, one rectangle per set cell.
   */
  method DrawBlocks(matrix: seq<seq<bool>>, padding: int, bs: nat) returns (rects: seq<Rect>)
    ensures rects == GridRects(matrix, padding, bs)
  {
    rects := [];
    var row := 0;
    while row < |matrix|
      invariant 0 <= row <= |matrix|
      invariant rects == GridRects(matrix[..row], padding, bs)
    {
      var rowColumns := matrix[row];
      var column := 0;
      while column < |rowColumns|
        invariant 0 <= column <= |rowColumns|
        invariant rects == GridRects(matrix[..row], padding, bs) + RowRects(rowColumns[..column], row, padding, bs)
      {
        if rowColumns[column] {
          var x1 := padding + column * bs;
          var y1 := padding + row * bs;
          var x2 := padding + (column + 1) * bs - 1;
          var y2 := padding + (row + 1) * bs - 1;
          rects := rects + [Rect(x1, y1, x2, y2)];
        }
        assert rowColumns[..column + 1][..column] == rowColumns[..column];
        column := column + 1;
      }
      assert rowColumns[..column] == rowColumns;
      assert matrix[..row + 1][..row] == matrix[..row];
      row := row + 1;
    }
    assert matrix[..row] == matrix;
  }
}
