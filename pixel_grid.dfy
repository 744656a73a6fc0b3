/**
 * The occupancy grid of the pixel generator: a size x size boolean matrix,
 * mirror-symmetric about its vertical axis, whose left half (centre column
 * included) is read bit by bit from the digest bytes that follow the colour
 * byte.
 */
module PixelGrid {
  import opened Wrappers
  import opened Errors
  import opened PixelBits
  import opened Arithmetic

  /** Columns the generator fills from bits: half the grid, rounded up (Python `size // 2 + size % 2`). */
  function HalfColumns(size: int): (h: int)
    ensures 2 * h - 1 <= size <= 2 * h
  {
    size / 2 + size % 2
  }

  /**
   * The entropy a pixel generator of this size requires: one bit per cell
   * of the filled half grid and eight bits for the colour byte. The filled
   * half covers at least half the grid and at most one extra column.
   */
  function RequiredEntropy(size: int): (e: int)
    ensures size >= 0 ==> size * size <= 2 * (e - 8) <= size * size + size
  {
    var h := HalfColumns(size);
    if size >= 0 then
      MulMonotone(size, 2 * h, size);
      MulMonotone(2 * h, size + 1, size);
      h * size + 8
    else
      h * size + 8
  }

  lemma RequiredEntropyExamples()
    ensures RequiredEntropy(5) == 23
    ensures RequiredEntropy(4) == 16
    ensures RequiredEntropy(1) == 9
  {
  }

  /** The number of cells the fill loop visits, `size * (size // 2 + size % 2)`. */
  function Cells(size: nat): nat {
    size * (size / 2 + size % 2)
  }

  /** Cell `cell` of the fill loop sits in column cell / size, left of the mirror axis. */
  lemma CellColumn(size: nat, cell: int)
    requires 0 <= cell < Cells(size)
    ensures size > 0
    ensures 0 <= cell / size < HalfColumns(size)
    ensures 2 * (cell / size) < size
  {
    var h := HalfColumns(size);
    if cell / size >= h {
      MulMonotone(h, cell / size, size);
    }
  }

  /** The column (left of or on the mirror axis) whose bit decides column `c`. */
  function SourceColumn(size: nat, c: int): (sc: int)
    requires 0 <= c < size
    ensures 0 <= sc < HalfColumns(size)
    ensures sc == c || sc == size - 1 - c
    ensures sc == c <==> 2 * c < size
  {
    if c <= size - 1 - c then c else size - 1 - c
  }

  /** The bit that decides cell (row, col): bit `min(col, size-1-col) * size + row`. */
  function BitIndex(size: nat, row: int, col: int): (k: nat)
    requires 0 <= row < size && 0 <= col < size
    ensures k < Cells(size)
    ensures k / size == SourceColumn(size, col) && k % size == row
  {
    var sc := SourceColumn(size, col);
    MulMonotone(sc + 1, HalfColumns(size), size);
    DivModUnique(sc * size + row, size, sc, row);
    sc * size + row
  }

  predicate IsSquare(m: seq<seq<bool>>, size: nat) {
    |m| == size && forall r :: 0 <= r < size ==> |m[r]| == size
  }

  /** The bytes after the colour byte hold a bit for every cell the loop visits. */
  predicate EnoughBits(bits: seq<int>, size: nat) {
    Cells(size) <= 8 * |bits|
  }

  /**
   * The grid a fill over `bits` produces: each cell holds the bit of its
   * source column. Every grid is square and mirror-symmetric.
   */
  function Grid(bits: seq<int>, size: nat): (m: seq<seq<bool>>)
    requires EnoughBits(bits, size)
    ensures IsSquare(m, size)
    ensures forall r, c :: 0 <= r < size && 0 <= c < size ==> m[r][c] == m[r][size - 1 - c]
  {
    seq(size, r requires 0 <= r < size =>
      seq(size, c requires 0 <= c < size => GetBit(BitIndex(size, r, c), bits)))
  }

  /**
   * The converse correspondence: bit k of the fill decides cell
   * (k % size, k / size) and its mirror image.
   */
  lemma BitDecidesCell(bits: seq<int>, size: nat, k: nat)
    requires EnoughBits(bits, size) && k < Cells(size)
    ensures size > 0 && 0 <= k / size < size
    ensures Grid(bits, size)[k % size][k / size] == GetBit(k, bits)
    ensures Grid(bits, size)[k % size][size - 1 - k / size] == GetBit(k, bits)
  {
    CellColumn(size, k);
    var row, col := k % size, k / size;
    assert BitIndex(size, row, col) == col * size + row == k;
    assert BitIndex(size, row, size - 1 - col) == col * size + row;
  }

  /** Bit k has been read and is set once the loop has passed cell k. */
  predicate Marked(bits: seq<int>, upto: int, k: int) {
    0 <= k < upto && k < 8 * |bits| && GetBit(k, bits)
  }

  /** The matrix after the loop has handled cells 0 .. upto-1: a cell is set when it or its mirror was marked. */
  predicate FilledUpTo(m: seq<seq<bool>>, bits: seq<int>, size: nat, upto: int) {
    IsSquare(m, size) &&
    forall r, c :: 0 <= r < size && 0 <= c < size ==>
      m[r][c] == (Marked(bits, upto, c * size + r) || Marked(bits, upto, (size - 1 - c) * size + r))
  }

  /** After the whole loop, of the two candidate indices for a cell, the one in range is its BitIndex. */
  lemma FinalCell(size: nat, r: int, c: int)
    requires 0 <= r < size && 0 <= c < size
    ensures var s := BitIndex(size, r, c);
            (c * size + r < Cells(size) ==> c * size + r == s) &&
            ((size - 1 - c) * size + r < Cells(size) ==> (size - 1 - c) * size + r == s)
  {
    var h := HalfColumns(size);
    var s := BitIndex(size, r, c);
    assert Cells(size) == h * size;
    if SourceColumn(size, c) == c {
      if size - 1 - c != c {
        MulMonotone(h, size - 1 - c, size);
      }
    } else {
      MulMonotone(h, c, size);
    }
  }

  /** Handling cell `cell` extends the fill by one cell: a set bit marks the cell and its mirror image. */
  lemma MarkStep(prev: seq<seq<bool>>, next: seq<seq<bool>>, bits: seq<int>, size: nat, cell: nat)
    requires FilledUpTo(prev, bits, size, cell)
    requires cell < Cells(size) && cell < 8 * |bits|
    requires IsSquare(next, size)
    requires forall r, c :: 0 <= r < size && 0 <= c < size ==>
               next[r][c] == (prev[r][c] || (GetBit(cell, bits) && r == cell % size && (c == cell / size || c == size - 1 - cell / size)))
    ensures FilledUpTo(next, bits, size, cell + 1)
  {
    CellColumn(size, cell);
    forall r, c | 0 <= r < size && 0 <= c < size
      ensures next[r][c] == (Marked(bits, cell + 1, c * size + r) || Marked(bits, cell + 1, (size - 1 - c) * size + r))
    {
      DivModUnique(cell, size, c, r);
      DivModUnique(cell, size, size - 1 - c, r);
    }
  }

  /** Once every cell has been handled, the matrix is the grid. */
  lemma FilledIsGrid(m: seq<seq<bool>>, bits: seq<int>, size: nat)
    requires EnoughBits(bits, size)
    requires FilledUpTo(m, bits, size, Cells(size))
    ensures m == Grid(bits, size)
  {
    var g := Grid(bits, size);
    forall r | 0 <= r < size ensures m[r] == g[r] {
      forall c | 0 <= c < size ensures m[r][c] == g[r][c] {
        FinalCell(size, r, c);
      }
    }
  }

  /**
   * The fill loop of `generate`: visits cells 0 .. Cells(size)-1, reads each
   * one's bit (IndexError once the bits run out) and, when it is set, marks
   * the cell and its mirror image.
   */
  method FillGrid(bits: seq<int>, size: nat) returns (r: Result<seq<seq<bool>>, Error>)
    ensures r.Success? <==> EnoughBits(bits, size)
    ensures r.Failure? ==> r.error == IndexError
    ensures r.Success? ==> r.value == Grid(bits, size)
  {
    var matrix := seq(size, _ => seq(size, _ => false));
    var cells := size * (size / 2 + size % 2);
    var cell := 0;
    while cell < cells
      invariant 0 <= cell <= cells == Cells(size)
      invariant cell <= 8 * |bits|
      invariant FilledUpTo(matrix, bits, size, cell)
    {
      if cell / 8 >= |bits| {
        return Failure(IndexError);
      }
      ghost var prev := matrix;
      CellColumn(size, cell);
      if GetBit(cell, bits) {
        var column := cell / size;
        var row := cell % size;
        matrix := matrix[row := matrix[row][column := true]];
        matrix := matrix[row := matrix[row][size - column - 1 := true]];
      }
      MarkStep(prev, matrix, bits, size, cell);
      cell := cell + 1;
    }
    FilledIsGrid(matrix, bits, size);
    return Success(matrix);
  }
}
