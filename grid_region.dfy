/** The checks of the overlapping grid: the 16-bit seen map, validation of a region of a
    puzzle, and the solved and problematic tests built on it, with the facts that make writes
    to one cell affect the checks of another only through regions they share. */
module GridRegion {
  import opened Common
  import opened GridLayout

  /** `Seen`: a 16-bit map with bit v set once value v has been seen. */
  datatype Seen = Seen(bits: bv16)
  {
    /** `Seen::contains`. */
    predicate Contains(v: nat)
      requires v < 16
    {
      bits & Bit(v) != 0
    }

    /** `Seen::add` (values of 16 and more are a caller error). */
    function Add(v: nat): Seen
      requires v < 16
    {
      Seen(bits | Bit(v))
    }
  }

  /** The bit `Seen` uses for value v. */
  function Bit(v: nat): bv16
    requires v < 16
  {
    (1 as bv16) << v
  }

  /** `Seen::new`. */
  const NO_SEEN: Seen := Seen(0)

  /** Adding v marks v and keeps every other mark as it was. */
  lemma SeenAdd(seen: Seen, v: nat, w: nat)
    requires v < 16 && w < 16
    ensures seen.Add(v).Contains(w) <==> seen.Contains(w) || w == v
  {
    if v != w {
      assert Bit(v) & Bit(w) == 0;
    }
  }

  lemma NoSeenIsEmpty(w: nat)
    requires w < 16
    ensures !NO_SEEN.Contains(w)
  {
  }

  /** Values that fit the seen map. */
  predicate Small(vs: seq<int>)
  {
    forall k :: 0 <= k < |vs| ==> 0 <= vs[k] < 16
  }

  /** The seen map after adding the values of `vs` in order to an empty one. */
  function SeenOf(vs: seq<int>): Seen
    requires Small(vs)
  {
    if vs == [] then NO_SEEN else SeenOf(vs[..|vs| - 1]).Add(vs[|vs| - 1])
  }

  /** The seen map of `vs` marks exactly the values that occur in `vs`. */
  lemma {:induction false} SeenOfContains(vs: seq<int>, w: nat)
    requires Small(vs) && w < 16
    ensures SeenOf(vs).Contains(w) <==> w in vs
  {
    if vs == [] {
      NoSeenIsEmpty(w);
    } else {
      var init := vs[..|vs| - 1];
      assert Small(init);
      SeenOfContains(init, w);
      SeenAdd(SeenOf(init), vs[|vs| - 1], w);
      assert vs == init + [vs[|vs| - 1]];
    }
  }

  /** The values of `region` pass validation, every index being inside the store. */
  predicate RegionValid(c: seq<Byte>, region: seq<nat>, partial: bool)
  {
    (forall k :: 0 <= k < |region| ==> region[k] < |c|) && ValidValues(Values(c, region), partial)
  }

  /** `Region::validate`: one scan with a seen map, stopping at the first empty (unless
      `partial`), out-of-range or repeated value. */
  method Validate(cells: array<Byte>, region: seq<nat>, partial: bool) returns (ok: bool)
    requires forall k :: 0 <= k < |region| ==> region[k] < cells.Length
    ensures ok == RegionValid(cells[..], region, partial)
  {
    var seen := NO_SEEN;
    ghost var vs := Values(cells[..], region);
    for t := 0 to |region|
      invariant ValidValues(vs[..t], partial)
      invariant forall w :: 1 <= w <= 9 ==> (seen.Contains(w) <==> w in vs[..t])
    {
      var v := cells[region[t]];
      assert vs[..t + 1] == vs[..t] + [v];
      ValidAppend(vs[..t], v, partial);
      if partial && v == 0 {
        continue;
      }
      if v == 0 || v > 9 || seen.Contains(v) {
        InvalidPrefix(vs, t + 1, partial);
        return false;
      }
      forall w | 1 <= w <= 9 ensures seen.Add(v).Contains(w) <==> w in vs[..t + 1] {
        SeenAdd(seen, v, w);
      }
      seen := seen.Add(v);
    }
    assert vs[..|region|] == vs;
    return true;
  }

  /** The puzzle's blocks are aligned and lie inside a store of `len` cells. */
  predicate Fits(s: Sudoku, len: nat)
  {
    Aligned(s) && forall b :: 0 <= b < 9 ==> s.blockStart[b] + 9 <= len
  }

  lemma RowInside(s: Sudoku, len: nat, r: nat)
    requires Fits(s, len) && r < 9
    ensures forall k :: 0 <= k < 9 ==> Row(s, r)[k] < len
  {
  }

  lemma ColumnInside(s: Sudoku, len: nat, r: nat)
    requires Fits(s, len) && r < 9
    ensures forall k :: 0 <= k < 9 ==> Column(s, r)[k] < len
  {
  }

  lemma BlockInside(s: Sudoku, len: nat, r: nat)
    requires Fits(s, len) && r < 9
    ensures forall k :: 0 <= k < 9 ==> Block(s, r)[k] < len
  {
  }

  /** `SudokuGrid::is_solved`: every row, column and block of the puzzle passes full validation. */
  predicate IsSolved(c: seq<Byte>, s: Sudoku)
    requires |s.blockStart| == 9
  {
    (forall r :: 0 <= r < 9 ==> RegionValid(c, Row(s, r), false)) &&
    (forall r :: 0 <= r < 9 ==> RegionValid(c, Column(s, r), false)) &&
    (forall r :: 0 <= r < 9 ==> RegionValid(c, Block(s, r), false))
  }

  /** `SudokuGrid::cell_is_problematic`: the row, column or block that the puzzle looks up for
      cell i fails partial validation. */
  predicate CellIsProblematic(c: seq<Byte>, s: Sudoku, i: nat)
    requires |s.blockStart| == 9 && InPuzzle(s, i)
  {
    !RegionValid(c, RowFor(s, i), true) || !RegionValid(c, ColumnFor(s, i), true) ||
    !RegionValid(c, BlockFor(s, i), true)
  }

  /** No cell of puzzle s is problematic in `c`. */
  ghost predicate NoProblems(c: seq<Byte>, s: Sudoku)
    requires |s.blockStart| == 9
  {
    forall j: nat :: InPuzzle(s, j) ==> !CellIsProblematic(c, s, j)
  }

  // ---- How writes affect the checks ----

  /** A write to a cell outside a region leaves the region's verdict alone. */
  lemma RegionFrame(c: seq<Byte>, region: seq<nat>, partial: bool, t: nat, v: Byte)
    requires t < |c| && t !in region
    ensures RegionValid(c[t := v], region, partial) == RegionValid(c, region, partial)
  {
    if forall k :: 0 <= k < |region| ==> region[k] < |c| {
      ValuesFrame(c, region, t, v);
    }
  }

  /** A value above 9 makes its cell problematic: its block rejects it. */
  lemma OverNineProblematic(c: seq<Byte>, s: Sudoku, t: nat)
    requires Aligned(s) && InPuzzle(s, t) && t < |c| && c[t] > 9
    ensures CellIsProblematic(c, s, t)
  {
    var region := BlockFor(s, t);
    var k :| 0 <= k < 9 && region[k] == t;
    if forall l :: 0 <= l < 9 ==> region[l] < |c| {
      assert Values(c, region)[k] == c[t];
    }
  }

  /** Writing v at t keeps cell k unproblematic when t's own check passes and either both cells
      lie in the same block chunk or the puzzle has no aliased blocks: every region of k that
      holds t is then a region t's check looks at. */
  lemma WriteKeepsUnproblematic(c: seq<Byte>, s: Sudoku, k: nat, t: nat, v: Byte)
    requires Aligned(s) && InPuzzle(s, k) && InPuzzle(s, t) && t < |c|
    requires k / 9 == t / 9 || NoAlias(s)
    requires !CellIsProblematic(c, s, k) && !CellIsProblematic(c[t := v], s, t)
    ensures !CellIsProblematic(c[t := v], s, k)
  {
    RegionsForCompat(s, k, t);
    if t !in RowFor(s, k) { RegionFrame(c, RowFor(s, k), true, t, v); }
    if t !in ColumnFor(s, k) { RegionFrame(c, ColumnFor(s, k), true, t, v); }
    if t !in BlockFor(s, k) { RegionFrame(c, BlockFor(s, k), true, t, v); }
  }

  /** Emptying a cell never makes another cell problematic: partial validation skips gaps. */
  lemma ClearKeepsUnproblematic(c: seq<Byte>, s: Sudoku, k: nat, t: nat)
    requires |s.blockStart| == 9 && InPuzzle(s, k) && t < |c|
    requires !CellIsProblematic(c, s, k)
    ensures !CellIsProblematic(c[t := 0], s, k)
  {
    ClearKeepsPartialValid(c, RowFor(s, k), t);
    ClearKeepsPartialValid(c, ColumnFor(s, k), t);
    ClearKeepsPartialValid(c, BlockFor(s, k), t);
  }

  // ---- Solved means full and free of problems ----

  /** The blocks of the middle column and the middle row never alias another block; so each row
      and column has a cell whose look-up finds that very row or column. */
  predicate MiddleUnaliased(s: Sudoku)
    requires |s.blockStart| == 9
  {
    forall b, b' :: 0 <= b < 9 && 0 <= b' < 9 && b != b' && b in {1, 3, 4, 5, 7} ==>
      s.blockStart[b] != s.blockStart[b']
  }

  /** Every puzzle `SudokuGrid::new` builds has unaliased middle blocks, even on a 1 x 1 grid. */
  lemma NewSudokuMiddleUnaliased(n: nat, m: nat, x: nat, y: nat)
    requires x < n && y < m
    ensures MiddleUnaliased(NewSudoku(n, m, x, y))
  {
    forall b, b' | 0 <= b < 9 && 0 <= b' < 9 && b != b' && b in {1, 3, 4, 5, 7}
      ensures NewSudoku(n, m, x, y).blockStart[b] != NewSudoku(n, m, x, y).blockStart[b']
    {
      SpanOffsets(n, m, x, y, b);
      SpanOffsets(n, m, x, y, b');
    }
  }

  lemma NoAliasMiddleUnaliased(s: Sudoku)
    requires |s.blockStart| == 9 && NoAlias(s)
    ensures MiddleUnaliased(s)
  {
    forall b, b' | 0 <= b < 9 && 0 <= b' < 9 && b != b' && b in {1, 3, 4, 5, 7}
      ensures s.blockStart[b] != s.blockStart[b']
    {
      if b < b' {
        assert s.blockStart[b] != s.blockStart[b'];
      } else {
        assert s.blockStart[b'] != s.blockStart[b];
      }
    }
  }

  /** A cell of an unaliased block is found in that block. */
  lemma UnaliasedBlockFound(s: Sudoku, b: nat, j: nat)
    requires Aligned(s) && MiddleUnaliased(s) && b in {1, 3, 4, 5, 7} && InBlock(s, b, j)
    ensures InPuzzle(s, j) && BlockIndexFor(s, j) == b
  {
    var f := BlockIndexFor(s, j);
    InBlockChunk(s, b, j);
    InBlockChunk(s, f, j);
  }

  /** Row r is the row looked up for its middle cell, column r the column looked up for its
      middle cell, and block r the block looked up for its first cell. */
  lemma RegionsFoundByMembers(s: Sudoku, r: nat)
    requires Aligned(s) && MiddleUnaliased(s) && r < 9
    ensures InPuzzle(s, Row(s, r)[4]) && RowFor(s, Row(s, r)[4]) == Row(s, r)
    ensures InPuzzle(s, Column(s, r)[4]) && ColumnFor(s, Column(s, r)[4]) == Column(s, r)
    ensures InPuzzle(s, Block(s, r)[0]) && BlockFor(s, Block(s, r)[0]) == Block(s, r)
  {
    var rb := (r / 3) * 3 + 1;
    assert InBlock(s, rb, Row(s, r)[4]);
    UnaliasedBlockFound(s, rb, Row(s, r)[4]);
    DivModUnique(rb, 3, r / 3, 1);
    RowForOfMember(s, r, 4);
    var cb := r / 3 + 3;
    assert InBlock(s, cb, Column(s, r)[4]);
    UnaliasedBlockFound(s, cb, Column(s, r)[4]);
    DivModUnique(cb, 3, 1, r / 3);
    ColumnForOfMember(s, r, 4);
    var j := Block(s, r)[0];
    assert InBlock(s, r, j);
    InBlockChunk(s, r, j);
    InBlockChunk(s, BlockIndexFor(s, j), j);
  }

  /** Partial validity with no gap is full validity. */
  lemma NoGapFullValid(vs: seq<int>)
    requires ValidValues(vs, true) && forall k :: 0 <= k < |vs| ==> vs[k] != 0
    ensures ValidValues(vs, false)
  {
  }

  /** A region passing full validation has no empty cell, and passes partial validation. */
  lemma FullRegionCells(c: seq<Byte>, region: seq<nat>, j: nat)
    requires RegionValid(c, region, false) && j in region
    ensures c[j] != 0 && RegionValid(c, region, true)
  {
    var k :| 0 <= k < |region| && region[k] == j;
    assert Values(c, region)[k] == c[j];
  }

  /** A region all of whose cells are filled, passing partial validation, passes full validation. */
  lemma FilledRegionValid(c: seq<Byte>, region: seq<nat>)
    requires RegionValid(c, region, true) && forall k :: 0 <= k < |region| ==> c[region[k]] != 0
    ensures RegionValid(c, region, false)
  {
    NoGapFullValid(Values(c, region));
  }

  /** A puzzle is solved exactly when every one of its cells is filled and none is problematic. */
  lemma SolvedIffNoProblems(c: seq<Byte>, s: Sudoku)
    requires Fits(s, |c|) && MiddleUnaliased(s)
    ensures IsSolved(c, s) <==>
      (forall j: nat :: InPuzzle(s, j) && j < |c| ==> c[j] != 0) &&
      (forall j: nat :: InPuzzle(s, j) ==> !CellIsProblematic(c, s, j))
  {
    if IsSolved(c, s) {
      SolvedCells(c, s);
    }
    if (forall j: nat :: InPuzzle(s, j) && j < |c| ==> c[j] != 0) &&
       (forall j: nat :: InPuzzle(s, j) ==> !CellIsProblematic(c, s, j)) {
      forall r | 0 <= r < 9
        ensures RegionValid(c, Row(s, r), false) && RegionValid(c, Column(s, r), false)
        ensures RegionValid(c, Block(s, r), false)
      {
        RegionsFoundByMembers(s, r);
        RegionCellsFilled(c, s, r);
        FilledRegionValid(c, Row(s, r));
        FilledRegionValid(c, Column(s, r));
        FilledRegionValid(c, Block(s, r));
      }
    }
  }

  /** In a solved puzzle each cell is filled and passes its checks. */
  lemma SolvedCells(c: seq<Byte>, s: Sudoku)
    requires Fits(s, |c|) && IsSolved(c, s)
    ensures forall j: nat :: InPuzzle(s, j) ==> j < |c| && c[j] != 0 && !CellIsProblematic(c, s, j)
  {
    forall j: nat | InPuzzle(s, j) ensures j < |c| && c[j] != 0 && !CellIsProblematic(c, s, j) {
      SolvedCell(c, s, j);
    }
  }

  lemma SolvedCell(c: seq<Byte>, s: Sudoku, j: nat)
    requires Fits(s, |c|) && IsSolved(c, s) && InPuzzle(s, j)
    ensures j < |c| && c[j] != 0 && !CellIsProblematic(c, s, j)
  {
    var b := BlockIndexFor(s, j);
    var r, col := (j % 9) / 3 + b / 3 * 3, j % 3 + (b % 3) * 3;
    assert RegionValid(c, Row(s, r), false);
    assert RegionValid(c, Column(s, col), false);
    assert RegionValid(c, Block(s, b), false);
    FullRegionCells(c, RowFor(s, j), j);
    FullRegionCells(c, ColumnFor(s, j), j);
    FullRegionCells(c, BlockFor(s, j), j);
  }

  lemma RegionCellsFilled(c: seq<Byte>, s: Sudoku, r: nat)
    requires Fits(s, |c|) && r < 9 && forall j: nat :: InPuzzle(s, j) && j < |c| ==> c[j] != 0
    ensures forall k :: 0 <= k < 9 ==> c[Row(s, r)[k]] != 0
    ensures forall k :: 0 <= k < 9 ==> c[Column(s, r)[k]] != 0
    ensures forall k :: 0 <= k < 9 ==> c[Block(s, r)[k]] != 0
  {
    forall k | 0 <= k < 9
      ensures InPuzzle(s, Row(s, r)[k]) && InPuzzle(s, Column(s, r)[k]) && InPuzzle(s, Block(s, r)[k])
    {
      assert InBlock(s, (r / 3) * 3 + k / 3, Row(s, r)[k]);
      assert InBlock(s, r / 3 + 3 * (k / 3), Column(s, r)[k]);
      assert InBlock(s, r, Block(s, r)[k]);
    }
  }
}
