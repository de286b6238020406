/** Addressing in the overlapping grid: an n x m torus of 9x9 puzzles sharing one flat cell
    store. Each puzzle owns a span of 7 blocks of 9 cells; its two top corner blocks are the
    bottom corner blocks of its neighbours above and to the right. All of it is index
    arithmetic over a puzzle's nine block start offsets. */
module GridLayout {
  import opened Common

  const TOP_LEFT_BLOCK: nat := 0
  const TOP_CENTER_BLOCK: nat := 1
  const TOP_RIGHT_BLOCK: nat := 2
  const MIDDLE_LEFT_BLOCK: nat := 3
  const MIDDLE_CENTER_BLOCK: nat := 4
  const MIDDLE_RIGHT_BLOCK: nat := 5
  const BOTTOM_LEFT_BLOCK: nat := 6
  const BOTTOM_CENTER_BLOCK: nat := 7
  const BOTTOM_RIGHT_BLOCK: nat := 8

  /** The blocks a puzzle stores in its own span, in memory order. */
  const BLOCK_MEMORY_ORDER: seq<nat> := [
    TOP_CENTER_BLOCK, MIDDLE_LEFT_BLOCK, MIDDLE_CENTER_BLOCK, MIDDLE_RIGHT_BLOCK,
    BOTTOM_LEFT_BLOCK, BOTTOM_CENTER_BLOCK, BOTTOM_RIGHT_BLOCK]

  /** The order in which `Sudoku::indexes` visits the blocks (centre last). */
  const INDEX_BLOCK_ORDER: seq<nat> := [
    BOTTOM_LEFT_BLOCK, BOTTOM_RIGHT_BLOCK, TOP_LEFT_BLOCK, TOP_RIGHT_BLOCK,
    BOTTOM_CENTER_BLOCK, TOP_CENTER_BLOCK, MIDDLE_LEFT_BLOCK, MIDDLE_RIGHT_BLOCK,
    MIDDLE_CENTER_BLOCK]

  /** One puzzle of the grid: where each of its nine blocks starts, and its coordinates. */
  datatype Sudoku = Sudoku(blockStart: seq<nat>, x: nat, y: nat)

  /** Position of puzzle (x, y) in the row-major list of puzzles. */
  function PuzzleIndex(n: nat, x: nat, y: nat): nat
  {
    x + y * n
  }

  /** First cell of the 63-cell span that puzzle (x, y) owns. */
  function SpanStart(n: nat, x: nat, y: nat): nat
  {
    PuzzleIndex(n, x, y) * 7 * 9
  }

  /** The puzzle `SudokuGrid::new` builds for coordinates (x, y). */
  function NewSudoku(n: nat, m: nat, x: nat, y: nat): (s: Sudoku)
    requires 0 < n && 0 < m
    ensures |s.blockStart| == 9 && s.x == x && s.y == y
  {
    var thisStart := SpanStart(n, x, y);
    Sudoku([
      SpanStart(n, x, (y + 1) % m) + 6 * 9,
      thisStart,
      SpanStart(n, (x + 1) % n, y) + 4 * 9,
      thisStart + 9,
      thisStart + 2 * 9,
      thisStart + 3 * 9,
      thisStart + 4 * 9,
      thisStart + 5 * 9,
      thisStart + 6 * 9], x, y)
  }

  /** Every block start is a multiple of 9, so blocks are aligned 9-cell chunks. */
  predicate Aligned(s: Sudoku)
  {
    |s.blockStart| == 9 && forall b :: 0 <= b < 9 ==> s.blockStart[b] % 9 == 0
  }

  // ---- Arithmetic on the torus ----

  lemma MulPos(d: int, n: nat)
    requires d >= 1
    ensures d * n >= n
  {
    MulMono(1, d, n);
  }

  /** Quotient and remainder are unique. */
  lemma DivModUnique(a: nat, n: nat, q: nat, r: nat)
    requires 0 <= r < n && a == q * n + r
    ensures a / n == q && a % n == r
  {
    var q', r' := a / n, a % n;
    assert (q - q') * n == r' - r;
    if q > q' { MulPos(q - q', n); }
    if q' > q { MulPos(q' - q, n); }
  }

  lemma PuzzleIndexBound(n: nat, m: nat, x: nat, y: nat)
    requires x < n && y < m
    ensures PuzzleIndex(n, x, y) < n * m
  {
    MulMono(y, m - 1, n);
    assert (m - 1) * n + n == n * m;
  }

  /** The puzzle index determines the coordinates. */
  lemma PuzzleIndexInverse(n: nat, x: nat, y: nat)
    requires x < n
    ensures PuzzleIndex(n, x, y) % n == x && PuzzleIndex(n, x, y) / n == y
  {
    DivModUnique(x + y * n, n, y, x);
  }

  lemma SpanBound(n: nat, m: nat, x: nat, y: nat)
    requires x < n && y < m
    ensures SpanStart(n, x, y) + 7 * 9 <= 7 * 9 * n * m
  {
    PuzzleIndexBound(n, m, x, y);
    MulMono(PuzzleIndex(n, x, y) + 1, n * m, 63);
  }

  /** Stepping forward on a cycle of length n is undone by stepping back. */
  lemma CycleStep(n: nat, a: nat, b: nat)
    requires a < n && b < n
    ensures (a + 1) % n == b <==> a == (b + n - 1) % n
  {
    if a + 1 < n {
      DivModUnique(a + 1, n, 0, a + 1);
    } else {
      DivModUnique(a + 1, n, 1, 0);
    }
    if b == 0 {
      DivModUnique(b + n - 1, n, 0, n - 1);
    } else {
      DivModUnique(b + n - 1, n, 1, b - 1);
    }
  }

  /** A step forward on a cycle lands on the same place only on a cycle of length 1. */
  lemma CycleFixed(n: nat, a: nat)
    requires a < n
    ensures (a + 1) % n == a <==> n == 1
  {
    if a + 1 < n {
      DivModUnique(a + 1, n, 0, a + 1);
    } else {
      DivModUnique(a + 1, n, 1, 0);
    }
  }

  // ---- Facts about the block layout built by SudokuGrid::new ----

  /** Every block start is aligned and lies inside the cell store; the seven stored blocks are
      this puzzle's span in memory order; the top corners are the neighbours' bottom corners. */
  lemma NewSudokuLayout(n: nat, m: nat, x: nat, y: nat)
    requires x < n && y < m
    ensures Aligned(NewSudoku(n, m, x, y))
    ensures forall b :: 0 <= b < 9 ==> NewSudoku(n, m, x, y).blockStart[b] + 9 <= 7 * 9 * n * m
    ensures forall k :: 0 <= k < 7 ==>
              NewSudoku(n, m, x, y).blockStart[BLOCK_MEMORY_ORDER[k]] == SpanStart(n, x, y) + k * 9
    ensures NewSudoku(n, m, x, y).blockStart[TOP_LEFT_BLOCK] == SpanStart(n, x, (y + 1) % m) + 6 * 9
    ensures NewSudoku(n, m, x, y).blockStart[TOP_RIGHT_BLOCK] == SpanStart(n, (x + 1) % n, y) + 4 * 9
  {
    forall b | 0 <= b < 9 ensures NewSudoku(n, m, x, y).blockStart[b] % 9 == 0 {
      BlockStartAligned(n, m, x, y, b);
    }
    NewSudokuInside(n, m, x, y);
  }

  /** Each block start is block j of some puzzle's span, so a multiple of 9. */
  lemma BlockStartAligned(n: nat, m: nat, x: nat, y: nat, b: nat)
    requires x < n && y < m && b < 9
    ensures NewSudoku(n, m, x, y).blockStart[b] % 9 == 0
  {
    var p := if b == 0 then PuzzleIndex(n, x, (y + 1) % m)
             else if b == 2 then PuzzleIndex(n, (x + 1) % n, y)
             else PuzzleIndex(n, x, y);
    var j := if b == 0 then 6 else if b == 2 then 4 else if b == 1 then 0 else b - 2;
    DivModUnique(NewSudoku(n, m, x, y).blockStart[b], 9, 7 * p + j, 0);
  }

  /** Every block of the puzzle lies inside the cell store. */
  lemma NewSudokuInside(n: nat, m: nat, x: nat, y: nat)
    requires x < n && y < m
    ensures forall b :: 0 <= b < 9 ==> NewSudoku(n, m, x, y).blockStart[b] + 9 <= 7 * 9 * n * m
  {
    SpanBound(n, m, x, y);
    SpanBound(n, m, x, (y + 1) % m);
    SpanBound(n, m, (x + 1) % n, y);
  }

  /** The top-left block of (x, y) is the bottom-right block of its neighbour (x, y+1), and the
      top-right block is the bottom-left block of its neighbour (x+1, y), both on the torus. */
  lemma CornersOverlap(n: nat, m: nat, x: nat, y: nat)
    requires x < n && y < m
    ensures NewSudoku(n, m, x, y).blockStart[TOP_LEFT_BLOCK]
         == NewSudoku(n, m, x, (y + 1) % m).blockStart[BOTTOM_RIGHT_BLOCK]
    ensures NewSudoku(n, m, x, y).blockStart[TOP_RIGHT_BLOCK]
         == NewSudoku(n, m, (x + 1) % n, y).blockStart[BOTTOM_LEFT_BLOCK]
  {
  }

  /** On a 1x1 grid the puzzle overlaps itself: top-left is bottom-right and top-right is
      bottom-left. */
  lemma SingleSudokuOverlapsItself()
    ensures NewSudoku(1, 1, 0, 0).blockStart[TOP_LEFT_BLOCK] == NewSudoku(1, 1, 0, 0).blockStart[BOTTOM_RIGHT_BLOCK]
    ensures NewSudoku(1, 1, 0, 0).blockStart[TOP_RIGHT_BLOCK] == NewSudoku(1, 1, 0, 0).blockStart[BOTTOM_LEFT_BLOCK]
    ensures NewSudoku(1, 1, 0, 0).blockStart == [54, 0, 36, 9, 18, 27, 36, 45, 54]
  {
    CornersOverlap(1, 1, 0, 0);
  }

  /** No two blocks of a puzzle share a start exactly when the torus is at least 2 x 2: only the
      corner pairs can meet, top-left with bottom-right when m == 1 and top-right with
      bottom-left when n == 1. */
  predicate NoAlias(s: Sudoku)
  {
    forall b, b' :: 0 <= b < b' < |s.blockStart| ==> s.blockStart[b] != s.blockStart[b']
  }

  lemma NoAliasIff(n: nat, m: nat, x: nat, y: nat)
    requires x < n && y < m
    ensures NoAlias(NewSudoku(n, m, x, y)) <==> 2 <= n && 2 <= m
  {
    var s := NewSudoku(n, m, x, y);
    var bs := s.blockStart;
    CycleFixed(m, y);
    CycleFixed(n, x);
    PuzzleIndexInverse(n, x, y);
    PuzzleIndexInverse(n, x, (y + 1) % m);
    PuzzleIndexInverse(n, (x + 1) % n, y);
    if 2 <= n && 2 <= m {
      forall b, b' | 0 <= b < b' < 9 ensures bs[b] != bs[b'] {
        SpanOffsets(n, m, x, y, b);
        SpanOffsets(n, m, x, y, b');
      }
    } else if n == 1 {
      assert bs[TOP_RIGHT_BLOCK] == bs[BOTTOM_LEFT_BLOCK];
    } else {
      assert bs[TOP_LEFT_BLOCK] == bs[BOTTOM_RIGHT_BLOCK];
    }
  }

  /** Each block start as a span number and a block offset within that span. */
  lemma SpanOffsets(n: nat, m: nat, x: nat, y: nat, b: nat)
    requires x < n && y < m && b < 9
    ensures var bs := NewSudoku(n, m, x, y).blockStart;
      bs[b] / 63 == (if b == 0 then PuzzleIndex(n, x, (y + 1) % m)
                     else if b == 2 then PuzzleIndex(n, (x + 1) % n, y)
                     else PuzzleIndex(n, x, y)) &&
      bs[b] % 63 == 9 * (if b == 0 then 6 else if b == 2 then 4 else if b == 1 then 0 else b - 2)
  {
    var p := if b == 0 then PuzzleIndex(n, x, (y + 1) % m)
             else if b == 2 then PuzzleIndex(n, (x + 1) % n, y)
             else PuzzleIndex(n, x, y);
    var j := if b == 0 then 6 else if b == 2 then 4 else if b == 1 then 0 else b - 2;
    DivModUnique(NewSudoku(n, m, x, y).blockStart[b], 63, p, 9 * j);
  }

  // ---- Regions ----

  /** `SudokuGrid::block`: the nine consecutive cells from the block's start. */
  function Block(s: Sudoku, i: nat): (r: seq<nat>)
    requires |s.blockStart| == 9 && i < 9
    ensures |r| == 9
    ensures forall k :: 0 <= k < 9 ==> InBlock(s, i, r[k])
  {
    seq(9, k requires 0 <= k < 9 => s.blockStart[i] + k)
  }

  /** `SudokuGrid::row`: row y crosses the three blocks of band y/3, at offsets 3*(y%3)..+2. */
  function Row(s: Sudoku, y: nat): (r: seq<nat>)
    requires |s.blockStart| == 9 && y < 9
    ensures |r| == 9
    ensures forall k :: 0 <= k < 9 ==> InBlock(s, (y / 3) * 3 + k / 3, r[k])
  {
    seq(9, k requires 0 <= k < 9 => s.blockStart[(y / 3) * 3 + k / 3] + (y % 3) * 3 + k % 3)
  }

  /** `SudokuGrid::column`: column x crosses blocks x/3, x/3+3, x/3+6, at offsets x%3, +3, +6. */
  function Column(s: Sudoku, x: nat): (r: seq<nat>)
    requires |s.blockStart| == 9 && x < 9
    ensures |r| == 9
    ensures forall k :: 0 <= k < 9 ==> InBlock(s, x / 3 + 3 * (k / 3), r[k])
  {
    seq(9, k requires 0 <= k < 9 => s.blockStart[x / 3 + 3 * (k / 3)] + x % 3 + 3 * (k % 3))
  }

  /** Cell i lies in block b of s. */
  predicate InBlock(s: Sudoku, b: nat, i: nat)
    requires |s.blockStart| == 9 && b < 9
  {
    s.blockStart[b] <= i < s.blockStart[b] + 9
  }

  /** Cell i belongs to puzzle s. */
  predicate InPuzzle(s: Sudoku, i: nat)
    requires |s.blockStart| == 9
  {
    exists b :: 0 <= b < 9 && InBlock(s, b, i)
  }

  /** The search of `block_index_for` from block `b` on. */
  function BlockIndexFrom(s: Sudoku, i: nat, b: nat): (r: nat)
    requires |s.blockStart| == 9 && b <= 9
    requires exists b' :: b <= b' < 9 && InBlock(s, b', i)
    ensures b <= r < 9 && InBlock(s, r, i)
    ensures forall b' :: b <= b' < r ==> !InBlock(s, b', i)
    decreases 9 - b
  {
    if InBlock(s, b, i) then b else BlockIndexFrom(s, i, b + 1)
  }

  /** `SudokuGrid::block_index_for`: the first block of s holding cell i (a cell outside the
      puzzle is a caller error). */
  function BlockIndexFor(s: Sudoku, i: nat): (r: nat)
    requires |s.blockStart| == 9 && InPuzzle(s, i)
    ensures r < 9 && InBlock(s, r, i) && forall b :: 0 <= b < r ==> !InBlock(s, b, i)
  {
    BlockIndexFrom(s, i, 0)
  }

  /** `SudokuGrid::row_for`. */
  function RowFor(s: Sudoku, i: nat): (r: seq<nat>)
    requires |s.blockStart| == 9 && InPuzzle(s, i)
    ensures Aligned(s) ==> i in r
  {
    var block := BlockIndexFor(s, i);
    RowFound(s, block, i);
    Row(s, (i % 9) / 3 + block / 3 * 3)
  }

  /** `SudokuGrid::column_for`. */
  function ColumnFor(s: Sudoku, i: nat): (r: seq<nat>)
    requires |s.blockStart| == 9 && InPuzzle(s, i)
    ensures Aligned(s) ==> i in r
  {
    var block := BlockIndexFor(s, i);
    ColumnFound(s, block, i);
    Column(s, i % 3 + (block % 3) * 3)
  }

  /** `SudokuGrid::block_for`. */
  function BlockFor(s: Sudoku, i: nat): (r: seq<nat>)
    requires |s.blockStart| == 9 && InPuzzle(s, i)
    ensures i in r
  {
    var block := BlockIndexFor(s, i);
    assert Block(s, block)[i - s.blockStart[block]] == i;
    Block(s, block)
  }

  /** In an aligned puzzle, block b holds i exactly when it starts at i's 9-aligned chunk. */
  lemma InBlockChunk(s: Sudoku, b: nat, i: nat)
    requires Aligned(s) && b < 9
    ensures InBlock(s, b, i) <==> s.blockStart[b] == i / 9 * 9
  {
    var st := s.blockStart[b];
    DivModUnique(st, 9, st / 9, 0);
    if InBlock(s, b, i) {
      DivModUnique(i, 9, st / 9, i - st);
    }
  }

  /** Cells of the same chunk have the same first block. */
  lemma BlockIndexForChunk(s: Sudoku, i: nat, j: nat)
    requires Aligned(s) && InPuzzle(s, i) && i / 9 == j / 9
    ensures InPuzzle(s, j) && BlockIndexFor(s, j) == BlockIndexFor(s, i)
  {
    forall b | 0 <= b < 9 ensures InBlock(s, b, i) <==> InBlock(s, b, j) {
      InBlockChunk(s, b, i);
      InBlockChunk(s, b, j);
    }
  }

  /** Where the cell at offset o of block b sits in the row and the column looked up for it:
      at position k of row r, and at position k' of column c. */
  lemma RowSlot(b: nat, o: nat)
    requires b < 9 && o < 9
    ensures var r, k := o / 3 + b / 3 * 3, (b % 3) * 3 + o % 3;
      r < 9 && k < 9 && (r / 3) * 3 + k / 3 == b && (r % 3) * 3 + k % 3 == o
  {
    var r, k := o / 3 + b / 3 * 3, (b % 3) * 3 + o % 3;
    DivModUnique(r, 3, b / 3, o / 3);
    DivModUnique(k, 3, b % 3, o % 3);
  }

  lemma ColumnSlot(b: nat, i: nat)
    requires b < 9
    ensures var c, k := i % 3 + (b % 3) * 3, (b / 3) * 3 + (i % 9) / 3;
      c < 9 && k < 9 && c / 3 + 3 * (k / 3) == b && c % 3 + 3 * (k % 3) == i % 9
  {
    var c, k := i % 3 + (b % 3) * 3, (b / 3) * 3 + (i % 9) / 3;
    DivModUnique(c, 3, b % 3, i % 3);
    DivModUnique(k, 3, b / 3, (i % 9) / 3);
    DivModUnique(i, 3, i / 9 * 3 + (i % 9) / 3, i % 3) by {
      DivModUnique(i % 9, 3, (i % 9) / 3, (i % 9) % 3);
    }
  }

  /** The cell at position k of row r, when that position falls in block b at offset o. */
  lemma RowMember(s: Sudoku, r: nat, k: nat, b: nat, o: nat)
    requires |s.blockStart| == 9 && r < 9 && k < 9
    requires (r / 3) * 3 + k / 3 == b && (r % 3) * 3 + k % 3 == o
    ensures Row(s, r)[k] == s.blockStart[b] + o
  {
  }

  lemma ColumnMember(s: Sudoku, c: nat, k: nat, b: nat, o: nat)
    requires |s.blockStart| == 9 && c < 9 && k < 9
    requires c / 3 + 3 * (k / 3) == b && c % 3 + 3 * (k % 3) == o
    ensures Column(s, c)[k] == s.blockStart[b] + o
  {
  }

  /** The cell at offset o of block b lies in the row `row_for` picks for it. */
  lemma RowHolds(s: Sudoku, b: nat, o: nat)
    requires |s.blockStart| == 9 && b < 9 && o < 9
    ensures Row(s, o / 3 + b / 3 * 3)[(b % 3) * 3 + o % 3] == s.blockStart[b] + o
  {
    RowSlot(b, o);
    RowMember(s, o / 3 + b / 3 * 3, (b % 3) * 3 + o % 3, b, o);
  }

  /** Cell i, in block b, lies in the column `column_for` picks for it. */
  lemma ColumnHolds(s: Sudoku, b: nat, i: nat)
    requires |s.blockStart| == 9 && b < 9
    ensures Column(s, i % 3 + (b % 3) * 3)[(b / 3) * 3 + (i % 9) / 3] == s.blockStart[b] + i % 9
  {
    ColumnSlot(b, i);
    ColumnMember(s, i % 3 + (b % 3) * 3, (b / 3) * 3 + (i % 9) / 3, b, i % 9);
  }

  /** In an aligned puzzle, cell i of block b lies in the row and the column that `row_for`
      and `column_for` compute from b. */
  lemma RowFound(s: Sudoku, b: nat, i: nat)
    requires |s.blockStart| == 9 && b < 9 && InBlock(s, b, i)
    ensures Aligned(s) ==> i in Row(s, (i % 9) / 3 + b / 3 * 3)
  {
    if Aligned(s) {
      InBlockChunk(s, b, i);
      DivModUnique(i, 9, i / 9, i % 9);
      RowHolds(s, b, i % 9);
      assert Row(s, (i % 9) / 3 + b / 3 * 3)[(b % 3) * 3 + i % 9 % 3] == i;
    }
  }

  lemma ColumnFound(s: Sudoku, b: nat, i: nat)
    requires |s.blockStart| == 9 && b < 9 && InBlock(s, b, i)
    ensures Aligned(s) ==> i in Column(s, i % 3 + (b % 3) * 3)
  {
    if Aligned(s) {
      InBlockChunk(s, b, i);
      DivModUnique(i, 9, i / 9, i % 9);
      ColumnHolds(s, b, i);
      assert Column(s, i % 3 + (b % 3) * 3)[(b / 3) * 3 + (i % 9) / 3] == i;
    }
  }

  /** A member of row r looked up again gives back row r, provided the block found for it lies
      in r's band; a member of column c gives back column c, provided the block found for it
      lies in c's stack. */
  lemma RowForOfMember(s: Sudoku, r: nat, k: nat)
    requires Aligned(s) && r < 9 && k < 9
    requires InPuzzle(s, Row(s, r)[k])
    requires BlockIndexFor(s, Row(s, r)[k]) / 3 == r / 3
    ensures RowFor(s, Row(s, r)[k]) == Row(s, r)
  {
    var b, off := (r / 3) * 3 + k / 3, (r % 3) * 3 + k % 3;
    var j := Row(s, r)[k];
    assert (j % 9) / 3 + BlockIndexFor(s, j) / 3 * 3 == r by {
      RowMember(s, r, k, b, off);
      ChunkOffset(s.blockStart[b], off);
      DivModUnique(off, 3, r % 3, k % 3);
      assert (j % 9) / 3 == r % 3;
    }
  }

  lemma ColumnForOfMember(s: Sudoku, c: nat, k: nat)
    requires Aligned(s) && c < 9 && k < 9
    requires InPuzzle(s, Column(s, c)[k])
    requires BlockIndexFor(s, Column(s, c)[k]) % 3 == c / 3
    ensures ColumnFor(s, Column(s, c)[k]) == Column(s, c)
  {
    var b, off := c / 3 + 3 * (k / 3), c % 3 + 3 * (k % 3);
    var j := Column(s, c)[k];
    assert j % 3 + (BlockIndexFor(s, j) % 3) * 3 == c by {
      ColumnMember(s, c, k, b, off);
      var st := s.blockStart[b];
      DivModUnique(st, 9, st / 9, 0);
      DivModUnique(j, 3, 3 * (st / 9) + k % 3, c % 3);
    }
  }

  /** A cell at offset off < 9 of an aligned block start lies in the start's chunk. */
  lemma ChunkOffset(st: nat, off: nat)
    requires st % 9 == 0 && off < 9
    ensures (st + off) % 9 == off && (st + off) / 9 == st / 9
  {
    DivModUnique(st, 9, st / 9, 0);
    DivModUnique(st + off, 9, st / 9, off);
  }

  /** Two cells of one region looked up for cell t: when both lie in the same chunk, or when no
      blocks alias, the region looked up for the other cell is the same region. This is what
      lets a write to one cell affect the checks of another only through shared regions. */
  lemma RegionsForCompat(s: Sudoku, t: nat, j: nat)
    requires Aligned(s) && InPuzzle(s, t)
    requires t / 9 == j / 9 || NoAlias(s)
    ensures j in RowFor(s, t) ==> InPuzzle(s, j) && RowFor(s, j) == RowFor(s, t)
    ensures j in ColumnFor(s, t) ==> InPuzzle(s, j) && ColumnFor(s, j) == ColumnFor(s, t)
    ensures j in BlockFor(s, t) ==> InPuzzle(s, j) && BlockFor(s, j) == BlockFor(s, t)
  {
    if j in RowFor(s, t) { RowForCompat(s, t, j); }
    if j in ColumnFor(s, t) { ColumnForCompat(s, t, j); }
    if j in BlockFor(s, t) { BlockForCompat(s, t, j); }
  }

  lemma RowForCompat(s: Sudoku, t: nat, j: nat)
    requires Aligned(s) && InPuzzle(s, t) && j in RowFor(s, t)
    requires t / 9 == j / 9 || NoAlias(s)
    ensures InPuzzle(s, j) && RowFor(s, j) == RowFor(s, t)
  {
    var bt := BlockIndexFor(s, t);
    var rt := (t % 9) / 3 + bt / 3 * 3;
    assert rt / 3 == bt / 3 by { DivModUnique(rt, 3, bt / 3, (t % 9) / 3); }
    assert RowFor(s, t) == Row(s, rt);
    var k :| 0 <= k < 9 && Row(s, rt)[k] == j;
    RowMemberCompat(s, t, rt, k);
  }

  lemma RowMemberCompat(s: Sudoku, t: nat, r: nat, k: nat)
    requires Aligned(s) && InPuzzle(s, t) && r < 9 && k < 9
    requires r / 3 == BlockIndexFor(s, t) / 3
    requires t / 9 == Row(s, r)[k] / 9 || NoAlias(s)
    ensures InPuzzle(s, Row(s, r)[k]) && RowFor(s, Row(s, r)[k]) == Row(s, r)
  {
    var j := Row(s, r)[k];
    RowMemberBlock(s, r, k);
    if t / 9 == j / 9 {
      BlockIndexForChunk(s, t, j);
    } else {
      UniqueBlock(s, (r / 3) * 3 + k / 3, j);
    }
    RowForOfMember(s, r, k);
  }

  /** Position k of row r lies in block (r / 3) * 3 + k / 3, of r's band. */
  lemma RowMemberBlock(s: Sudoku, r: nat, k: nat)
    requires Aligned(s) && r < 9 && k < 9
    ensures var b := (r / 3) * 3 + k / 3; b < 9 && b / 3 == r / 3 && InBlock(s, b, Row(s, r)[k])
  {
    var b := (r / 3) * 3 + k / 3;
    RowMember(s, r, k, b, (r % 3) * 3 + k % 3);
    DivModUnique(b, 3, r / 3, k / 3);
  }

  /** Position k of column c lies in block c / 3 + 3 * (k / 3), of c's stack. */
  lemma ColumnMemberBlock(s: Sudoku, c: nat, k: nat)
    requires Aligned(s) && c < 9 && k < 9
    ensures var b := c / 3 + 3 * (k / 3); b < 9 && b % 3 == c / 3 && InBlock(s, b, Column(s, c)[k])
  {
    var b := c / 3 + 3 * (k / 3);
    ColumnMember(s, c, k, b, c % 3 + 3 * (k % 3));
    DivModUnique(b, 3, k / 3, c / 3);
  }

  lemma ColumnForCompat(s: Sudoku, t: nat, j: nat)
    requires Aligned(s) && InPuzzle(s, t) && j in ColumnFor(s, t)
    requires t / 9 == j / 9 || NoAlias(s)
    ensures InPuzzle(s, j) && ColumnFor(s, j) == ColumnFor(s, t)
  {
    var bt := BlockIndexFor(s, t);
    var ct := t % 3 + (bt % 3) * 3;
    assert ct / 3 == bt % 3 by { DivModUnique(ct, 3, bt % 3, t % 3); }
    assert ColumnFor(s, t) == Column(s, ct);
    var k :| 0 <= k < 9 && Column(s, ct)[k] == j;
    ColumnMemberCompat(s, t, ct, k);
  }

  lemma ColumnMemberCompat(s: Sudoku, t: nat, c: nat, k: nat)
    requires Aligned(s) && InPuzzle(s, t) && c < 9 && k < 9
    requires c / 3 == BlockIndexFor(s, t) % 3
    requires t / 9 == Column(s, c)[k] / 9 || NoAlias(s)
    ensures InPuzzle(s, Column(s, c)[k]) && ColumnFor(s, Column(s, c)[k]) == Column(s, c)
  {
    var j := Column(s, c)[k];
    ColumnMemberBlock(s, c, k);
    if t / 9 == j / 9 {
      BlockIndexForChunk(s, t, j);
    } else {
      UniqueBlock(s, c / 3 + 3 * (k / 3), j);
    }
    ColumnForOfMember(s, c, k);
  }

  /** The block looked up for any cell of block-for-t is block-for-t itself, aliasing or not:
      aliased blocks start at the same place and so are the same nine cells. */
  lemma BlockForCompat(s: Sudoku, t: nat, j: nat)
    requires Aligned(s) && InPuzzle(s, t) && j in BlockFor(s, t)
    ensures InPuzzle(s, j) && BlockFor(s, j) == BlockFor(s, t)
  {
    var bt := BlockIndexFor(s, t);
    var k :| 0 <= k < 9 && Block(s, bt)[k] == j;
    assert InBlock(s, bt, j);
    var bj := BlockIndexFor(s, j);
    InBlockChunk(s, bt, j);
    InBlockChunk(s, bj, j);
  }

  /** With no aliasing, the only block holding a cell of block b is b. */
  lemma UniqueBlock(s: Sudoku, b: nat, j: nat)
    requires Aligned(s) && NoAlias(s) && b < 9 && InBlock(s, b, j)
    ensures InPuzzle(s, j) && BlockIndexFor(s, j) == b
  {
    var f := BlockIndexFor(s, j);
    InBlockChunk(s, b, j);
    InBlockChunk(s, f, j);
  }

  // ---- Owners of a cell ----

  /** The puzzle that a corner block overlaps with, as `DfsBlock::new` and `sudokus_at_index`
      compute it: the top-left block is the bottom-right block of the puzzle above, the top-right
      block the bottom-left block of the puzzle to the right, and back. */
  function Overlapping(n: nat, m: nat, c: Coords, block: nat): (r: Option<Coords>)
    requires 0 < n && 0 < m
    ensures r.Some? <==> block in {TOP_LEFT_BLOCK, TOP_RIGHT_BLOCK, BOTTOM_LEFT_BLOCK, BOTTOM_RIGHT_BLOCK}
  {
    if block == TOP_LEFT_BLOCK then Some((c.0, (c.1 + 1) % m))
    else if block == TOP_RIGHT_BLOCK then Some(((c.0 + 1) % n, c.1))
    else if block == BOTTOM_LEFT_BLOCK then Some(((c.0 + n - 1) % n, c.1))
    else if block == BOTTOM_RIGHT_BLOCK then Some((c.0, (c.1 + m - 1) % m))
    else None
  }

  /** `SudokuGrid::sudoku_at_index`: the puzzle whose span holds cell i. */
  function SudokuAtIndex(n: nat, i: nat): (r: Coords)
    requires 0 < n
    ensures r.0 < n && SpanStart(n, r.0, r.1) <= i < SpanStart(n, r.0, r.1) + 7 * 9
  {
    var sudokuI := i / 9 / 7;
    SpanOfIndex(n, i);
    (sudokuI % n, sudokuI / n)
  }

  /** The span of puzzle number i / 63 holds cell i. */
  lemma SpanOfIndex(n: nat, i: nat)
    requires 0 < n
    ensures var p := i / 9 / 7; SpanStart(n, p % n, p / n) <= i < SpanStart(n, p % n, p / n) + 7 * 9
  {
    var p := i / 9 / 7;
    DivModUnique(p, n, p / n, p % n);
    DivModUnique(i, 63, p, i % 9 + 9 * (i / 9 % 7));
  }

  /** `SudokuGrid::sudokus_at_index`: the puzzle whose span holds cell i and, for a cell of a
      stored corner block, the neighbour that sees that block as its opposite corner. */
  function SudokusAtIndex(n: nat, m: nat, i: nat): (r: (Coords, Option<Coords>))
    requires 0 < n && 0 < m
    ensures r.0 == SudokuAtIndex(n, i)
    ensures r.1 == Overlapping(n, m, r.0, BLOCK_MEMORY_ORDER[i / 9 % 7])
  {
    var blockI := i / 9;
    var block := if blockI % 7 == 0 then TOP_CENTER_BLOCK else blockI % 7 + 2;
    var sudokuI := blockI / 7;
    var c := (sudokuI % n, sudokuI / n);
    (c, Overlapping(n, m, c, block))
  }

  /** Both lookups name the same owner, and it is a puzzle of the grid. */
  lemma SudokuAtIndexAgrees(n: nat, m: nat, i: nat)
    requires 0 < n && 0 < m && i < 7 * 9 * n * m
    ensures SudokuAtIndex(n, i) == SudokusAtIndex(n, m, i).0
    ensures SudokuAtIndex(n, i).0 < n && SudokuAtIndex(n, i).1 < m
  {
    var p := i / 9 / 7;
    DivModUnique(i, 63, p, i % 9 + 9 * (i / 9 % 7));
    assert i / 63 < n * m by {
      if i / 63 >= n * m { MulMono(n * m, i / 63, 63); }
    }
    if p / n >= m { MulMono(m, p / n, n); }
  }

  /** A cell has a second owner exactly when it lies in the stored bottom-left or bottom-right
      block of its span (slots 4 and 6 of the memory order). */
  lemma SecondOwnerSlots(n: nat, m: nat, i: nat)
    requires 0 < n && 0 < m
    ensures SudokusAtIndex(n, m, i).1.Some? <==> i / 9 % 7 == 4 || i / 9 % 7 == 6
  {
    var slot := i / 9 % 7;
    assert BLOCK_MEMORY_ORDER[slot] == BOTTOM_LEFT_BLOCK <==> slot == 4;
    assert BLOCK_MEMORY_ORDER[slot] == BOTTOM_RIGHT_BLOCK <==> slot == 6;
  }

  /** Cell i belongs to puzzle (x, y) exactly when (x, y) is the owner `sudokus_at_index` names
      first or the overlapping puzzle it names second. */
  lemma SudokusAtIndexOwners(n: nat, m: nat, i: nat, x: nat, y: nat)
    requires 0 < n && 0 < m && i < 7 * 9 * n * m && x < n && y < m
    ensures InPuzzle(NewSudoku(n, m, x, y), i) <==>
      (x, y) == SudokusAtIndex(n, m, i).0 || SudokusAtIndex(n, m, i).1 == Some((x, y))
  {
    if InPuzzle(NewSudoku(n, m, x, y), i) {
      OwnersOfMember(n, m, i, x, y);
    }
    if (x, y) == SudokusAtIndex(n, m, i).0 || SudokusAtIndex(n, m, i).1 == Some((x, y)) {
      MemberOfOwners(n, m, i, x, y);
    }
  }

  /** The span `sudokus_at_index` reads off cell i is puzzle index i / 9 / 7, at block
      i / 9 % 7 of that span. */
  lemma OwnersSetup(n: nat, m: nat, i: nat)
    requires 0 < n && 0 < m && i < 7 * 9 * n * m
    ensures SudokuAtIndex(n, i) == SudokusAtIndex(n, m, i).0
    ensures SudokuAtIndex(n, i).0 < n && SudokuAtIndex(n, i).1 < m
    ensures PuzzleIndex(n, i / 9 / 7 % n, i / 9 / 7 / n) == i / 9 / 7
    ensures 9 * (i / 9) / 63 == i / 9 / 7 && 9 * (i / 9) % 63 == 9 * (i / 9 % 7)
  {
    var q := i / 9;
    var p := q / 7;
    SudokuAtIndexAgrees(n, m, i);
    DivModUnique(9 * q, 63, p, 9 * (q % 7));
    PuzzleIndexInverse(n, p % n, p / n);
  }

  /** A block of puzzle (x, y) holds cell i exactly when it starts at i's chunk. */
  lemma ChunkBlocks(n: nat, m: nat, i: nat, x: nat, y: nat)
    requires x < n && y < m
    ensures forall b :: 0 <= b < 9 ==>
      (InBlock(NewSudoku(n, m, x, y), b, i) <==> NewSudoku(n, m, x, y).blockStart[b] == 9 * (i / 9))
  {
    var s := NewSudoku(n, m, x, y);
    NewSudokuLayout(n, m, x, y);
    forall b | 0 <= b < 9 ensures InBlock(s, b, i) <==> s.blockStart[b] == 9 * (i / 9) {
      InBlockChunk(s, b, i);
    }
  }

  lemma OwnersOfMember(n: nat, m: nat, i: nat, x: nat, y: nat)
    requires 0 < n && 0 < m && i < 7 * 9 * n * m && x < n && y < m
    requires InPuzzle(NewSudoku(n, m, x, y), i)
    ensures (x, y) == SudokusAtIndex(n, m, i).0 || SudokusAtIndex(n, m, i).1 == Some((x, y))
  {
    var b :| 0 <= b < 9 && InBlock(NewSudoku(n, m, x, y), b, i);
    var p := i / 9 / 7;
    SpanOfBlock(n, m, i, x, y, b);
    OwnersSetup(n, m, i);
    if b == TOP_LEFT_BLOCK {
      PuzzleIndexInverse(n, x, (y + 1) % m);
      CycleStep(m, y, p / n);
    } else if b == TOP_RIGHT_BLOCK {
      PuzzleIndexInverse(n, (x + 1) % n, y);
      CycleStep(n, x, p % n);
    } else {
      PuzzleIndexInverse(n, x, y);
    }
  }

  /** The span and span block that `sudokus_at_index` reads off a cell of block b of (x, y). */
  lemma SpanOfBlock(n: nat, m: nat, i: nat, x: nat, y: nat, b: nat)
    requires 0 < n && 0 < m && i < 7 * 9 * n * m && x < n && y < m && b < 9
    requires InBlock(NewSudoku(n, m, x, y), b, i)
    ensures i / 9 / 7 == (if b == 0 then PuzzleIndex(n, x, (y + 1) % m)
                          else if b == 2 then PuzzleIndex(n, (x + 1) % n, y)
                          else PuzzleIndex(n, x, y))
    ensures i / 9 % 7 == (if b == 0 then 6 else if b == 2 then 4 else if b == 1 then 0 else b - 2)
  {
    OwnersSetup(n, m, i);
    ChunkBlocks(n, m, i, x, y);
    SpanOffsets(n, m, x, y, b);
  }

  lemma MemberOfOwners(n: nat, m: nat, i: nat, x: nat, y: nat)
    requires 0 < n && 0 < m && i < 7 * 9 * n * m && x < n && y < m
    requires (x, y) == SudokusAtIndex(n, m, i).0 || SudokusAtIndex(n, m, i).1 == Some((x, y))
    ensures InPuzzle(NewSudoku(n, m, x, y), i)
  {
    var s := NewSudoku(n, m, x, y);
    var p := i / 9 / 7;
    var o := i / 9 % 7;
    OwnersSetup(n, m, i);
    ChunkBlocks(n, m, i, x, y);
    if (x, y) == SudokusAtIndex(n, m, i).0 {
      var b := if o == 0 then TOP_CENTER_BLOCK else o + 2;
      assert InBlock(s, b, i);
    } else if o == 4 {
      CycleStep(n, x, p % n);
      assert InBlock(s, TOP_RIGHT_BLOCK, i);
    } else {
      CycleStep(m, y, p / n);
      assert InBlock(s, TOP_LEFT_BLOCK, i);
    }
  }

  /** Every cell of the span of (x, y) is owned first by (x, y). */
  lemma OwnSpanOwner(n: nat, m: nat, x: nat, y: nat, k: nat)
    requires 0 < n && 0 < m && x < n && y < m && k < 7 * 9
    ensures SudokuAtIndex(n, SpanStart(n, x, y) + k) == (x, y)
    ensures SudokusAtIndex(n, m, SpanStart(n, x, y) + k).0 == (x, y)
  {
    var i := SpanStart(n, x, y) + k;
    DivModUnique(i, 9, PuzzleIndex(n, x, y) * 7 + k / 9, k % 9);
    DivModUnique(i / 9, 7, PuzzleIndex(n, x, y), k / 9);
    PuzzleIndexInverse(n, x, y);
  }

  /** Every cell of the top-left or top-right block of (x, y) names (x, y) as its second owner. */
  lemma TopCornerSecondOwner(n: nat, m: nat, x: nat, y: nat, k: nat)
    requires 0 < n && 0 < m && x < n && y < m && k < 9
    ensures SudokusAtIndex(n, m, NewSudoku(n, m, x, y).blockStart[TOP_LEFT_BLOCK] + k).1 == Some((x, y))
    ensures SudokusAtIndex(n, m, NewSudoku(n, m, x, y).blockStart[TOP_RIGHT_BLOCK] + k).1 == Some((x, y))
  {
    TopLeftSecondOwner(n, m, x, y, k);
    TopRightSecondOwner(n, m, x, y, k);
  }

  lemma TopLeftSecondOwner(n: nat, m: nat, x: nat, y: nat, k: nat)
    requires 0 < n && 0 < m && x < n && y < m && k < 9
    ensures SudokusAtIndex(n, m, NewSudoku(n, m, x, y).blockStart[TOP_LEFT_BLOCK] + k).1 == Some((x, y))
  {
    var above := (y + 1) % m;
    OwnSpanOwner(n, m, x, above, 6 * 9 + k);
    DivModUnique(SpanStart(n, x, above) + 6 * 9 + k, 9, PuzzleIndex(n, x, above) * 7 + 6, k);
    DivModUnique(PuzzleIndex(n, x, above) * 7 + 6, 7, PuzzleIndex(n, x, above), 6);
    CycleStep(m, y, above);
  }

  lemma TopRightSecondOwner(n: nat, m: nat, x: nat, y: nat, k: nat)
    requires 0 < n && 0 < m && x < n && y < m && k < 9
    ensures SudokusAtIndex(n, m, NewSudoku(n, m, x, y).blockStart[TOP_RIGHT_BLOCK] + k).1 == Some((x, y))
  {
    var right := (x + 1) % n;
    OwnSpanOwner(n, m, right, y, 4 * 9 + k);
    DivModUnique(SpanStart(n, right, y) + 4 * 9 + k, 9, PuzzleIndex(n, right, y) * 7 + 4, k);
    DivModUnique(PuzzleIndex(n, right, y) * 7 + 4, 7, PuzzleIndex(n, right, y), 4);
    CycleStep(n, x, right);
  }

  /** A corner block is shared with the puzzle `Overlapping` names, as that puzzle's opposite
      corner; so every cell of it belongs to both puzzles. */
  lemma OverlappingShares(n: nat, m: nat, x: nat, y: nat, block: nat, k: nat)
    requires 0 < n && 0 < m && x < n && y < m && block < 9 && k < 9
    requires Overlapping(n, m, (x, y), block).Some?
    ensures Overlapping(n, m, (x, y), block).value.0 < n && Overlapping(n, m, (x, y), block).value.1 < m
    ensures InPuzzle(NewSudoku(n, m, Overlapping(n, m, (x, y), block).value.0,
                                     Overlapping(n, m, (x, y), block).value.1),
                     NewSudoku(n, m, x, y).blockStart[block] + k)
  {
    var o := Overlapping(n, m, (x, y), block).value;
    var s := NewSudoku(n, m, x, y);
    var t := NewSudoku(n, m, o.0, o.1);
    var cell := s.blockStart[block] + k;
    if block == TOP_LEFT_BLOCK {
      assert InBlock(t, BOTTOM_RIGHT_BLOCK, cell);
    } else if block == TOP_RIGHT_BLOCK {
      assert InBlock(t, BOTTOM_LEFT_BLOCK, cell);
    } else if block == BOTTOM_LEFT_BLOCK {
      CycleStep(n, o.0, x);
      assert InBlock(t, TOP_RIGHT_BLOCK, cell);
    } else {
      CycleStep(m, o.1, y);
      assert InBlock(t, TOP_LEFT_BLOCK, cell);
    }
  }

  // ---- The cells of a puzzle, as `Sudoku::indexes` lists them ----

  /** `Sudoku::indexes`: the nine blocks in `INDEX_BLOCK_ORDER`, each as its nine cells. */
  function Indexes(s: Sudoku): (r: seq<nat>)
    requires |s.blockStart| == 9
    ensures |r| == 81
  {
    seq(81, k requires 0 <= k < 81 => s.blockStart[INDEX_BLOCK_ORDER[k / 9]] + k % 9)
  }

  /** Where each block appears in `INDEX_BLOCK_ORDER`. */
  const INDEX_POSITION: seq<nat> := [2, 5, 3, 6, 8, 7, 0, 4, 1]

  lemma IndexOrderPermutes()
    ensures forall b :: 0 <= b < 9 ==> INDEX_POSITION[b] < 9 && INDEX_BLOCK_ORDER[INDEX_POSITION[b]] == b
    ensures forall p :: 0 <= p < 9 ==> INDEX_BLOCK_ORDER[p] < 9
    ensures forall p, p' :: 0 <= p < p' < 9 ==> INDEX_BLOCK_ORDER[p] != INDEX_BLOCK_ORDER[p']
  {
  }

  /** `Sudoku::indexes` lists exactly the cells of the puzzle. */
  lemma IndexesMembers(s: Sudoku, j: nat)
    requires |s.blockStart| == 9
    ensures j in Indexes(s) <==> InPuzzle(s, j)
  {
    IndexOrderPermutes();
    if j in Indexes(s) {
      var k :| 0 <= k < 81 && Indexes(s)[k] == j;
      assert InBlock(s, INDEX_BLOCK_ORDER[k / 9], j);
    }
    if InPuzzle(s, j) {
      var b :| 0 <= b < 9 && InBlock(s, b, j);
      var p := INDEX_POSITION[b];
      var d := j - s.blockStart[b];
      DivModUnique(9 * p + d, 9, p, d);
      assert Indexes(s)[9 * p + d] == j;
    }
  }

  /** Entry k of `Sudoku::indexes` lies in the chunk of the k/9-th listed block, at offset k%9. */
  lemma IndexChunk(s: Sudoku, k: nat)
    requires Aligned(s) && k < 81
    ensures Indexes(s)[k] / 9 * 9 == s.blockStart[INDEX_BLOCK_ORDER[k / 9]]
    ensures Indexes(s)[k] % 9 == k % 9
  {
    var st := s.blockStart[INDEX_BLOCK_ORDER[k / 9]];
    DivModUnique(st, 9, st / 9, 0);
    DivModUnique(Indexes(s)[k], 9, st / 9, k % 9);
  }

  /** `Sudoku::indexes` lists no cell twice exactly when no two blocks of the puzzle alias. */
  lemma IndexesDistinct(s: Sudoku)
    requires Aligned(s)
    ensures Distinct(Indexes(s)) <==> NoAlias(s)
  {
    var ix := Indexes(s);
    IndexOrderPermutes();
    if NoAlias(s) {
      forall k, l | 0 <= k < l < 81 ensures ix[k] != ix[l] {
        IndexChunk(s, k);
        IndexChunk(s, l);
        assert k / 9 != l / 9 || k % 9 != l % 9 by {
          DivModUnique(l, 9, l / 9, l % 9);
          DivModUnique(k, 9, k / 9, k % 9);
        }
      }
    } else {
      var b, b' :| 0 <= b < b' < 9 && s.blockStart[b] == s.blockStart[b'];
      var p, p' := INDEX_POSITION[b], INDEX_POSITION[b'];
      assert ix[9 * p] == ix[9 * p'];
    }
  }

  /** On a 1 x 1 grid `Sudoku::indexes` repeats the two shared corner blocks: 81 entries, some
      of them the same cell. */
  lemma SingleSudokuIndexesRepeat()
    ensures |Indexes(NewSudoku(1, 1, 0, 0))| == 81 && !Distinct(Indexes(NewSudoku(1, 1, 0, 0)))
  {
    NoAliasIff(1, 1, 0, 0);
    NewSudokuLayout(1, 1, 0, 0);
    IndexesDistinct(NewSudoku(1, 1, 0, 0));
  }
}
