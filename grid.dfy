/** `SudokuGrid`: the n x m torus of overlapping puzzles over one flat store of cells, with its
    checks, its depth-first solver and its single-gap filler, all updating the store in place. */
module Grid {
  import opened Common
  import opened GridLayout
  import opened GridRegion
  import opened GridSearch

  function Min(a: nat, b: nat): nat
  {
    if a <= b then a else b
  }

  // ---- Gaps in a region ----

  /** The number of empty cells among the region's cells in `c`. */
  function Gaps(c: seq<Byte>, region: seq<nat>): nat
  {
    if region == [] then 0
    else Gaps(c, region[..|region| - 1]) +
         (if region[|region| - 1] < |c| && c[region[|region| - 1]] == 0 then 1 else 0)
  }

  /** A region has a gap exactly when one of its cells is empty. */
  lemma {:induction false} GapsPositive(c: seq<Byte>, region: seq<nat>)
    requires forall k :: 0 <= k < |region| ==> region[k] < |c|
    ensures Gaps(c, region) > 0 <==> exists k :: 0 <= k < |region| && c[region[k]] == 0
  {
    if region != [] {
      var init := region[..|region| - 1];
      GapsPositive(c, init);
      if exists k :: 0 <= k < |init| && c[init[k]] == 0 {
        var k :| 0 <= k < |init| && c[init[k]] == 0;
        assert region[k] == init[k];
      }
      if exists k :: 0 <= k < |region| && c[region[k]] == 0 {
        var k :| 0 <= k < |region| && c[region[k]] == 0;
        if k < |init| {
          assert init[k] == region[k];
        }
      }
    }
  }

  /** In a region with exactly one gap, every other position holds a filled cell. */
  lemma {:induction false} OneGap(c: seq<Byte>, region: seq<nat>, g: nat)
    requires forall k :: 0 <= k < |region| ==> region[k] < |c|
    requires Gaps(c, region) == 1 && g < |region| && c[region[g]] == 0
    ensures forall k :: 0 <= k < |region| && k != g ==> c[region[k]] != 0
  {
    var last := |region| - 1;
    var init := region[..last];
    if g == last {
      GapsPositive(c, init);
      forall k | 0 <= k < last ensures c[region[k]] != 0 {
        assert region[k] == init[k];
      }
    } else {
      assert init[g] == region[g];
      GapsPositive(c, init);
      OneGap(c, init, g);
      forall k | 0 <= k < last && k != g ensures c[region[k]] != 0 {
        assert region[k] == init[k];
      }
    }
  }

  /** Filling an empty cell never opens a gap: a region without gaps keeps none. */
  lemma FillKeepsNoGaps(c: seq<Byte>, region: seq<nat>, j: nat, v: Byte)
    requires forall k :: 0 <= k < |region| ==> region[k] < |c|
    requires j < |c| && c[j] == 0 && Gaps(c, region) == 0
    ensures Gaps(c[j := v], region) == 0
  {
    GapsPositive(c, region);
    GapsPositive(c[j := v], region);
  }

  /** Writing the value a single-gap region misses into its gap leaves it without gaps, and
      completes it: if its eight filled cells passed partial validation, it now passes full
      validation. */
  lemma FillGapCompletes(c: seq<Byte>, region: seq<nat>, g: nat)
    requires |region| == 9 && forall k :: 0 <= k < 9 ==> region[k] < |c|
    requires Gaps(c, region) == 1 && g < 9 && c[region[g]] == 0
    ensures 1 <= MissingValue(Values(c, region)) <= 9
    ensures Gaps(c[region[g] := MissingValue(Values(c, region))], region) == 0
    ensures RegionValid(c, region, true) ==>
      RegionValid(c[region[g] := MissingValue(Values(c, region))], region, false)
  {
    var vs := Values(c, region);
    OneGapMissesADigit(vs, g);
    var mv := MissingValue(vs);
    var c' := c[region[g] := mv];
    OneGap(c, region, g);
    GapsPositive(c', region);
    if RegionValid(c, region, true) {
      var ws := Values(c', region);
      forall k | 0 <= k < 9 ensures ws[k] == (if k == g then mv else vs[k]) {
      }
      forall k, l | 0 <= k < l < 9 ensures ws[k] != ws[l] {
        if k == g {
          assert ws[l] == vs[l] && vs[l] in vs;
        } else if l == g {
          assert ws[k] == vs[k] && vs[k] in vs;
        } else {
          assert ws[k] == vs[k] && ws[l] == vs[l];
        }
      }
    }
  }

  /** Value w passes the checks of cell j of puzzle s once written into `c`. */
  predicate ValueFits(c: seq<Byte>, s: Sudoku, j: nat, w: Byte)
    requires |s.blockStart| == 9 && InPuzzle(s, j) && j < |c|
  {
    !CellIsProblematic(c[j := w], s, j)
  }

  lemma TriedStep(c: seq<Byte>, s: Sudoku, j: nat, v: Byte)
    requires |s.blockStart| == 9 && InPuzzle(s, j) && j < |c| && v < 255
    requires forall w: Byte :: c[j] < w < v ==> !ValueFits(c, s, j, w)
    requires !ValueFits(c, s, j, v)
    ensures forall w: Byte :: c[j] < w < v + 1 ==> !ValueFits(c, s, j, w)
  {
  }

  // ---- The regions `solve_trivial_regions` works through ----

  /** Row i, column i and block i for i in 0..9, in that order. */
  function Regions(s: Sudoku): (r: seq<seq<nat>>)
    requires |s.blockStart| == 9
    ensures |r| == 27
  {
    seq(27, k requires 0 <= k < 27 =>
      if k % 3 == 0 then Row(s, k / 3) else if k % 3 == 1 then Column(s, k / 3) else Block(s, k / 3))
  }

  /** A region of nine cells of puzzle s inside a store of `len` cells. */
  predicate Inside(s: Sudoku, len: nat, region: seq<nat>)
    requires |s.blockStart| == 9
  {
    |region| == 9 && forall q :: 0 <= q < 9 ==> region[q] < len && InPuzzle(s, region[q])
  }

  lemma RegionsInside(s: Sudoku, len: nat)
    requires Fits(s, len)
    ensures forall k :: 0 <= k < 27 ==> Inside(s, len, Regions(s)[k])
  {
    forall k | 0 <= k < 27 ensures Inside(s, len, Regions(s)[k]) {
      RegionInside(s, len, k / 3);
    }
  }

  /** Row, column and block r of a puzzle that fits the store lie in the store and the puzzle. */
  lemma RegionInside(s: Sudoku, len: nat, r: nat)
    requires Fits(s, len) && r < 9
    ensures Inside(s, len, Row(s, r)) && Inside(s, len, Column(s, r)) && Inside(s, len, Block(s, r))
  {
    RowInside(s, len, r);
    ColumnInside(s, len, r);
    BlockInside(s, len, r);
    forall q | 0 <= q < 9
      ensures InPuzzle(s, Row(s, r)[q]) && InPuzzle(s, Column(s, r)[q]) && InPuzzle(s, Block(s, r)[q])
    {
      assert InBlock(s, (r / 3) * 3 + q / 3, Row(s, r)[q]);
      assert InBlock(s, r / 3 + 3 * (q / 3), Column(s, r)[q]);
      assert InBlock(s, r, Block(s, r)[q]);
    }
  }

  lemma RegionsStep(s: Sudoku, i: nat)
    requires |s.blockStart| == 9 && i < 9
    ensures Regions(s)[..3 * i + 3] == Regions(s)[..3 * i] + [Row(s, i), Column(s, i), Block(s, i)]
  {
    var rs := Regions(s);
    assert rs[3 * i] == Row(s, i) by { DivModUnique(3 * i, 3, i, 0); }
    assert rs[3 * i + 1] == Column(s, i) by { DivModUnique(3 * i + 1, 3, i, 1); }
    assert rs[3 * i + 2] == Block(s, i) by { DivModUnique(3 * i + 2, 3, i, 2); }
    assert rs[..3 * i + 3] == rs[..3 * i] + [rs[3 * i], rs[3 * i + 1], rs[3 * i + 2]];
  }

  /** Every cell the store holds differently from `init` was empty there, lies in puzzle s and
      now holds a digit. */
  predicate FilledOnly(init: seq<Byte>, c: seq<Byte>, s: Sudoku)
    requires |s.blockStart| == 9
  {
    |c| == |init| &&
    forall j: nat :: j < |c| && c[j] != init[j] ==> init[j] == 0 && 1 <= c[j] <= 9 && InPuzzle(s, j)
  }

  /** The cells of puzzle s hold values the seen map can record. */
  predicate SmallCells(c: seq<Byte>, s: Sudoku)
    requires |s.blockStart| == 9
  {
    forall j: nat :: j < |c| && InPuzzle(s, j) ==> c[j] < 16
  }

  /** Cell j holds what region `region` forces there: the region's other cells are filled,
      and j holds the smallest digit they miss. This is the digit `solve_trivial_regions` writes
      into the single gap of a region. */
  ghost predicate ForcedBy(c: seq<Byte>, region: seq<nat>, j: nat)
    requires j < |c| && forall q :: 0 <= q < |region| ==> region[q] < |c|
  {
    j in region && c[j] == MissingValue(Values(c[j := 0], region)) &&
    forall q :: 0 <= q < |region| && region[q] != j ==> c[region[q]] != 0
  }

  /** Every region of `rs` lies in a store of `len` cells. */
  predicate Within(rs: seq<seq<nat>>, len: nat)
  {
    forall k, q :: 0 <= k < |rs| && 0 <= q < |rs[k]| ==> rs[k][q] < len
  }

  /** Every cell of `c` that differs from `init` holds the digit forced there by one of the
      regions of `rs`. */
  ghost predicate ForcedIn(init: seq<Byte>, c: seq<Byte>, rs: seq<seq<nat>>)
    requires |init| == |c| && Within(rs, |c|)
  {
    forall j :: 0 <= j < |c| && c[j] != init[j] ==> exists k :: 0 <= k < |rs| && ForcedBy(c, rs[k], j)
  }

  /** Every cell of `c` that differs from `init` holds the digit forced there by one of the
      rows, columns and blocks of puzzle s. */
  ghost predicate Forced(init: seq<Byte>, c: seq<Byte>, s: Sudoku)
    requires Fits(s, |c|) && |init| == |c|
  {
    RegionsInside(s, |c|);
    ForcedIn(init, c, Regions(s))
  }

  // ---- The store of puzzles ----

  /** The grid: n x m puzzles over 7 * 9 * n * m cells, the puzzle list built once by `new` and
      the cells updated in place. */
  class SudokuGrid {
    const n: nat
    const m: nat
    const cells: array<Byte>
    const sudokus: seq<Sudoku>

    ghost predicate Valid()
    {
      cells.Length == 7 * 9 * n * m && |sudokus| == n * m &&
      forall k :: 0 <= k < |sudokus| ==> 0 < n && 0 < m && sudokus[k] == NewSudoku(n, m, k % n, k / n)
    }

    /** `SudokuGrid::new`: an all-empty store, and puzzle k at coordinates (k % n, k / n). */
    constructor New(n: nat, m: nat)
      ensures Valid() && this.n == n && this.m == m && fresh(cells)
      ensures forall j :: 0 <= j < cells.Length ==> cells[j] == 0
    {
      this.n := n;
      this.m := m;
      cells := new Byte[7 * 9 * n * m](_ => 0);
      sudokus := seq(n * m, k requires 0 <= k < n * m => NewSudoku(n, m, k % n, k / n));
    }

    /** `SudokuGrid::sudoku`: the puzzle at coordinates `xy` is the one `new` built for them. */
    function SudokuAt(xy: Coords): (s: Sudoku)
      requires Valid() && xy.0 < n && xy.1 < m
      ensures s == NewSudoku(n, m, xy.0, xy.1)
      ensures Fits(s, cells.Length) && MiddleUnaliased(s)
    {
      PuzzleIndexBound(n, m, xy.0, xy.1);
      PuzzleIndexInverse(n, xy.0, xy.1);
      NewSudokuLayout(n, m, xy.0, xy.1);
      NewSudokuMiddleUnaliased(n, m, xy.0, xy.1);
      sudokus[xy.0 + xy.1 * n]
    }

    /** `SudokuGrid::set_block`: the block's cells take the given values in order, as many as
        there are values (at most nine); nothing else changes. */
    method SetBlock(s: Sudoku, b: nat, values: seq<Byte>)
      requires Fits(s, cells.Length) && b < 9
      modifies cells
      ensures forall j :: 0 <= j < cells.Length ==>
        cells[j] == (if s.blockStart[b] <= j < s.blockStart[b] + Min(9, |values|)
                     then values[j - s.blockStart[b]] else old(cells[j]))
      ensures |values| >= 9 ==> Values(cells[..], Block(s, b)) == values[..9]
    {
      var start := s.blockStart[b];
      for t := 0 to Min(9, |values|)
        invariant forall j :: 0 <= j < cells.Length ==>
          cells[j] == (if start <= j < start + t then values[j - start] else old(cells[j]))
      {
        cells[start + t] := values[t];
      }
    }

    /** `SudokuGrid::is_solved`: every row, then every column, then every block passes full
        validation. */
    method IsSolved(s: Sudoku) returns (solved: bool)
      requires Fits(s, cells.Length)
      ensures solved == GridRegion.IsSolved(cells[..], s)
    {
      for r := 0 to 9
        invariant forall r' :: 0 <= r' < r ==> RegionValid(cells[..], Row(s, r'), false)
      {
        RowInside(s, cells.Length, r);
        var ok := Validate(cells, Row(s, r), false);
        if !ok {
          return false;
        }
      }
      for r := 0 to 9
        invariant forall r' :: 0 <= r' < r ==> RegionValid(cells[..], Column(s, r'), false)
      {
        ColumnInside(s, cells.Length, r);
        var ok := Validate(cells, Column(s, r), false);
        if !ok {
          return false;
        }
      }
      for r := 0 to 9
        invariant forall r' :: 0 <= r' < r ==> RegionValid(cells[..], Block(s, r'), false)
      {
        BlockInside(s, cells.Length, r);
        var ok := Validate(cells, Block(s, r), false);
        if !ok {
          return false;
        }
      }
      return true;
    }

    /** `SudokuGrid::is_solved_all`: every puzzle of the grid is solved. */
    method IsSolvedAll() returns (solved: bool)
      requires Valid()
      ensures solved <==>
        forall x, y :: 0 <= x < n && 0 <= y < m ==> GridRegion.IsSolved(cells[..], NewSudoku(n, m, x, y))
    {
      for x := 0 to n
        invariant forall x', y :: 0 <= x' < x && 0 <= y < m ==>
          GridRegion.IsSolved(cells[..], NewSudoku(n, m, x', y))
      {
        var ok := IsSolvedColumn(x);
        if !ok {
          return false;
        }
      }
      return true;
    }

    /** The inner loop of `is_solved_all`: every puzzle in column x of the grid is solved. */
    method IsSolvedColumn(x: nat) returns (solved: bool)
      requires Valid() && x < n
      ensures solved <==> forall y :: 0 <= y < m ==> GridRegion.IsSolved(cells[..], NewSudoku(n, m, x, y))
    {
      for y := 0 to m
        invariant forall y' :: 0 <= y' < y ==> GridRegion.IsSolved(cells[..], NewSudoku(n, m, x, y'))
      {
        var ok := IsSolved(SudokuAt((x, y)));
        if !ok {
          return false;
        }
      }
      return true;
    }

    /** `SudokuGrid::cell_is_problematic`: the row, column or block looked up for cell i fails
        partial validation (a cell outside the puzzle is a caller error). */
    method CellIsProblematic(xy: Coords, i: nat) returns (problematic: bool)
      requires Valid() && xy.0 < n && xy.1 < m && InPuzzle(SudokuAt(xy), i)
      ensures problematic == GridRegion.CellIsProblematic(cells[..], SudokuAt(xy), i)
    {
      var s := SudokuAt(xy);
      RegionsForInside(s, cells.Length, i);
      var ok := Validate(cells, RowFor(s, i), true);
      if !ok {
        return true;
      }
      ok := Validate(cells, ColumnFor(s, i), true);
      if !ok {
        return true;
      }
      ok := Validate(cells, BlockFor(s, i), true);
      return !ok;
    }

    /** The guessing step of `depth_first_solve`: raise cell j by one, then keep raising it while
        it is below 9 and problematic. It stops at the smallest larger value that passes, or at
        9, which may still be problematic. */
    method NextFittingValue(xy: Coords, j: nat) returns (problematic: bool)
      requires Valid() && xy.0 < n && xy.1 < m && InPuzzle(SudokuAt(xy), j)
      requires j < cells.Length && cells[j] <= 8
      modifies cells
      ensures cells[..] == old(cells[..])[j := cells[j]]
      ensures old(cells[j]) < cells[j] <= 9
      ensures problematic == GridRegion.CellIsProblematic(cells[..], SudokuAt(xy), j)
      ensures problematic ==> cells[j] == 9
      ensures forall w: Byte :: old(cells[j]) < w < cells[j] ==> !ValueFits(old(cells[..]), SudokuAt(xy), j, w)
    {
      ghost var c0 := cells[..];
      ghost var s := SudokuAt(xy);
      cells[j] := cells[j] + 1;
      problematic := CellIsProblematic(xy, j);
      while cells[j] < 9 && problematic
        invariant c0[j] < cells[j] <= 9
        invariant cells[..] == c0[j := cells[j]]
        invariant problematic == GridRegion.CellIsProblematic(cells[..], s, j)
        invariant forall w: Byte :: c0[j] < w < cells[j] ==> !ValueFits(c0, s, j, w)
        decreases 9 - cells[j]
      {
        assert !ValueFits(c0, s, j, cells[j]);
        TriedStep(c0, s, j, cells[j]);
        cells[j] := cells[j] + 1;
        problematic := CellIsProblematic(xy, j);
      }
    }

    /** `SudokuGrid::depth_first_solve`: guess the puzzle's empty cells in `Sudoku::indexes`
        order. A cell filled meanwhile (a repeat of a shared corner) is skipped; an empty one is
        raised until it passes, and when none of 1..9 passes the search backtracks. Only empty
        cells of the puzzle change; a failed search restores the store. */
    method DepthFirstSolve(xy: Coords) returns (r: Result<nat>)
      requires Valid() && xy.0 < n && xy.1 < m
      modifies cells
      ensures forall j: nat :: j < cells.Length && (!InPuzzle(SudokuAt(xy), j) || old(cells[j]) != 0) ==>
        cells[j] == old(cells[j])
      ensures r.NoSolution? ==> cells[..] == old(cells[..])
      ensures r.Ok? ==> forall j: nat :: j < cells.Length && InPuzzle(SudokuAt(xy), j) && old(cells[j]) == 0 ==>
        1 <= cells[j] <= 9
      ensures r.Ok? && NoAlias(SudokuAt(xy)) ==>
        forall j: nat :: j < cells.Length && InPuzzle(SudokuAt(xy), j) && old(cells[j]) == 0 ==>
          !GridRegion.CellIsProblematic(cells[..], SudokuAt(xy), j)
      ensures r.Ok? && NoAlias(SudokuAt(xy)) && NoProblems(old(cells[..]), SudokuAt(xy)) ==>
        GridRegion.IsSolved(cells[..], SudokuAt(xy))
      ensures (forall j: nat :: j < cells.Length && InPuzzle(SudokuAt(xy), j) ==> old(cells[j]) != 0) ==>
        r == Ok(0)
    {
      var s := SudokuAt(xy);
      SearchSetup(cells[..], s);
      var indexes: seq<nat> := ZeroCells(cells[..], Indexes(s));
      ghost var init := cells[..];
      var found, backtracks, guesses, ignoreNonZero := Search(xy, s, indexes, init);
      if !found {
        return NoSolution;
      }
      SearchOutcome(cells[..], init, s, indexes, guesses, ignoreNonZero);
      return Ok(backtracks);
    }

    /** The main loop of `depth_first_solve` over the empty cells `indexes` of puzzle s. */
    method Search(xy: Coords, s: Sudoku, indexes: seq<nat>, ghost init: seq<Byte>)
      returns (found: bool, backtracks: nat, guesses: seq<nat>, ignoreNonZero: bool)
      requires Valid() && xy.0 < n && xy.1 < m && s == SudokuAt(xy)
      requires cells[..] == init && Setup(init, s, indexes)
      modifies cells
      ensures !found ==> cells[..] == init
      ensures found ==> cells.Length == |init| && SolveInv(cells[..], init, s, indexes, guesses, |indexes|, ignoreNonZero)
      ensures |indexes| == 0 ==> found && backtracks == 0
    {
      guesses := [];
      var i: nat := 0;
      ignoreNonZero := true;
      backtracks := 0;
      StartInv(init, s, indexes);

      while i < |indexes|
        invariant cells.Length == |init|
        invariant SolveInv(cells[..], init, s, indexes, guesses, i, ignoreNonZero)
        invariant !ignoreNonZero ==> cells[indexes[i]] <= 8
        invariant 0 <= Rank(Progress(cells[..], indexes, i, ignoreNonZero), 11) < Pow(11, |indexes|)
        invariant |indexes| == 0 ==> backtracks == 0
        decreases Pow(11, |indexes|) - Rank(Progress(cells[..], indexes, i, ignoreNonZero), 11), |indexes| - i
      {
        var exhausted, backedUp;
        exhausted, backedUp, guesses, i, ignoreNonZero := SearchRound(xy, s, indexes, init, guesses, i, ignoreNonZero);
        if exhausted {
          return false, backtracks + 1, guesses, ignoreNonZero;
        }
        if backedUp {
          backtracks := backtracks + 1;
        }
      }
      assert i == |indexes|;
      found := true;
    }

    /** One round of the loop of `depth_first_solve` at position i: skip a cell filled
        meanwhile, keep the next value that passes, or, when none does, back up to the latest
        guess still below 9 (`backedUp`); `exhausted` when there is none, the store then being
        back where the search started. Otherwise the invariant holds at the new position and
        the measure has grown, or stayed put while the position advanced. */
    method SearchRound(xy: Coords, s: Sudoku, indexes: seq<nat>, ghost init: seq<Byte>,
                       guesses: seq<nat>, i: nat, ignoreNonZero: bool)
      returns (exhausted: bool, backedUp: bool, guesses': seq<nat>, i': nat, ignoreNonZero': bool)
      requires Valid() && xy.0 < n && xy.1 < m && s == SudokuAt(xy)
      requires cells.Length == |init| && Setup(init, s, indexes)
      requires SolveInv(cells[..], init, s, indexes, guesses, i, ignoreNonZero) && i < |indexes|
      requires !ignoreNonZero ==> cells[indexes[i]] <= 8
      requires Rank(Progress(cells[..], indexes, i, ignoreNonZero), 11) < Pow(11, |indexes|)
      modifies cells
      ensures exhausted ==> backedUp && cells[..] == init
      ensures !exhausted ==>
        SolveInv(cells[..], init, s, indexes, guesses', i', ignoreNonZero') &&
        (!ignoreNonZero' ==> cells[indexes[i']] <= 8) &&
        Rank(Progress(cells[..], indexes, i', ignoreNonZero'), 11) < Pow(11, |indexes|) &&
        (Rank(Progress(old(cells[..]), indexes, i, ignoreNonZero), 11) <
           Rank(Progress(cells[..], indexes, i', ignoreNonZero'), 11) ||
         (Rank(Progress(old(cells[..]), indexes, i, ignoreNonZero), 11) ==
            Rank(Progress(cells[..], indexes, i', ignoreNonZero'), 11) && i' > i))
    {
      ghost var head := cells[..];
      if ignoreNonZero && cells[indexes[i]] > 0 {
        // already filled: a repeat of a cell guessed earlier
        SkipStep(head, init, s, indexes, guesses, i);
        return false, false, guesses, i + 1, true;
      }
      ghost var r0 := Rank(Progress(head, indexes, i, ignoreNonZero), 11);
      var problematic := NextFittingValue(xy, indexes[i]);
      if problematic {
        // no value fits: back up to the latest guess still below 9
        assert cells[..] == head[indexes[i] := 9];
        GuessFailed(head, init, s, indexes, guesses, i, ignoreNonZero);
        var resumed := Backtrack(init, s, indexes, guesses, i, r0);
        if resumed.None? {
          return true, true, guesses, i, ignoreNonZero;
        }
        return false, true, resumed.value.0, resumed.value.1, false;
      }
      var v := cells[indexes[i]];
      assert cells[..] == head[indexes[i] := v];
      AcceptStep(head, init, s, indexes, guesses, i, ignoreNonZero, v);
      return false, false, guesses + [i], i + 1, true;
    }

    /** The backtracking loop of `depth_first_solve`, entered with the cell at position i raised
        to 9 without passing: clear that cell and resume the latest guess, as long as the resumed
        cell holds 9 too. When the guesses run out the store is back where the search started;
        otherwise the search goes on from the resumed position, further along its measure. */
    method Backtrack(ghost init: seq<Byte>, ghost s: Sudoku, indexes: seq<nat>, guesses: seq<nat>, i: nat,
                     ghost r0: int)
      returns (resumed: Option<(seq<nat>, nat)>)
      requires cells.Length == |init| && Setup(init, s, indexes)
      requires SolveInv(cells[..], init, s, indexes, guesses, i, false) && i < |indexes| && cells[indexes[i]] == 9
      requires r0 < Rank(Progress(cells[..], indexes, i, false), 11) < Pow(11, |indexes|)
      modifies cells
      ensures resumed.None? ==> cells[..] == init
      ensures resumed.Some? ==>
        var (guesses', i') := resumed.value;
        SolveInv(cells[..], init, s, indexes, guesses', i', false) && i' < |indexes| &&
        cells[indexes[i']] <= 8 &&
        r0 < Rank(Progress(cells[..], indexes, i', false), 11) < Pow(11, |indexes|)
    {
      var rest: seq<nat>, at: nat := guesses, i;
      while cells[indexes[at]] == 9
        invariant at < |indexes| && indexes[at] < cells.Length
        invariant SolveInv(cells[..], init, s, indexes, rest, at, false)
        invariant r0 < Rank(Progress(cells[..], indexes, at, false), 11) < Pow(11, |indexes|)
        decreases |rest|
      {
        ghost var before := cells[..];
        cells[indexes[at]] := 0;
        assert cells[..] == before[indexes[at] := 0];
        if |rest| == 0 {
          ExhaustedStep(before, init, s, indexes, at);
          return None;
        }
        BacktrackStep(before, init, s, indexes, rest, at);
        at := rest[|rest| - 1];
        rest := rest[..|rest| - 1];
      }
      return Some((rest, at));
    }

    /** The region test of `solve_trivial_regions`: record the region's values in a seen map and
        count its gaps; a region with exactly one gap gets the smallest digit it misses written
        into that gap and is dropped; otherwise it is kept exactly when it has a gap. */
    method RetainRegion(region: seq<nat>) returns (keep: bool, wrote: bool)
      requires |region| == 9 && forall q :: 0 <= q < 9 ==> region[q] < cells.Length && cells[region[q]] < 16
      modifies cells
      ensures Gaps(old(cells[..]), region) == 1 ==>
        !keep && wrote &&
        exists g :: 0 <= g < 9 && old(cells[region[g]]) == 0 &&
          cells[..] == old(cells[..])[region[g] := MissingValue(Values(old(cells[..]), region))]
      ensures Gaps(old(cells[..]), region) != 1 ==>
        !wrote && cells[..] == old(cells[..]) && keep == (Gaps(old(cells[..]), region) > 0)
    {
      var seen, empties := Survey(cells, region);
      if empties == 1 {
        var missing := FirstUnseen(seen, Values(cells[..], region));
        var g := FindGap(cells, region);
        cells[region[g]] := missing;
        return false, true;
      }
      return empties > 0, false;
    }

    /** `SudokuGrid::solve_trivial_regions`: pass over the puzzle's 27 regions again and again,
        filling every region that has exactly one gap and dropping the regions without gaps,
        until a pass changes nothing. It reports whether any cell was filled. Only empty cells
        of the puzzle change, each to the digit forced by a region whose other cells are filled;
        nothing changes when no region has exactly one gap to begin with; and at the end no
        region of the puzzle has exactly one gap. */
    method SolveTrivialRegions(xy: Coords) returns (changed: bool)
      requires Valid() && xy.0 < n && xy.1 < m && SmallCells(cells[..], SudokuAt(xy))
      modifies cells
      ensures changed <==> cells[..] != old(cells[..])
      ensures FilledOnly(old(cells[..]), cells[..], SudokuAt(xy))
      ensures forall k :: 0 <= k < 27 ==> Gaps(cells[..], Regions(SudokuAt(xy))[k]) != 1
      ensures Forced(old(cells[..]), cells[..], SudokuAt(xy))
      ensures (forall k :: 0 <= k < 27 ==> Gaps(old(cells[..]), Regions(SudokuAt(xy))[k]) != 1) ==> !changed
    {
      var s := SudokuAt(xy);
      ghost var init := cells[..];
      RegionsInside(s, cells.Length);
      var unsolved: seq<seq<nat>> := [];
      for i := 0 to 9
        invariant unsolved == Regions(s)[..3 * i] && cells[..] == init
      {
        RegionsStep(s, i);
        unsolved := unsolved + [Row(s, i), Column(s, i), Block(s, i)];
      }
      assert unsolved == Regions(s);

      var hasChanged := true;
      var hasChangedAtAll := false;
      while hasChanged
        invariant FilledOnly(init, cells[..], s) && SmallCells(cells[..], s)
        invariant hasChangedAtAll <==> cells[..] != init
        invariant forall t :: 0 <= t < |unsolved| ==> Inside(s, cells.Length, unsolved[t]) && unsolved[t] in Regions(s)
        invariant Forced(init, cells[..], s)
        invariant (forall k :: 0 <= k < 27 ==> Gaps(init, Regions(s)[k]) != 1) ==> cells[..] == init
        invariant forall k :: 0 <= k < 27 && Regions(s)[k] !in unsolved ==> Gaps(cells[..], Regions(s)[k]) == 0
        invariant !hasChanged ==> forall t :: 0 <= t < |unsolved| ==> Gaps(cells[..], unsolved[t]) != 1
        decreases |unsolved| + (if hasChanged then 1 else 0)
      {
        var kept;
        kept, hasChanged := Sweep(init, s, Regions(s), unsolved);
        hasChangedAtAll := hasChangedAtAll || hasChanged;
        unsolved := kept;
      }
      return hasChangedAtAll;
    }

    /** One pass of `solve_trivial_regions` over the regions still unsolved: each is tested and
        filled in turn, and the regions kept are those that still had a gap. A pass fills
        something only when one of its regions had exactly one gap, and a pass that fills
        nothing leaves the store alone and keeps no region with exactly one gap. */
    method Sweep(ghost init: seq<Byte>, s: Sudoku, ghost all: seq<seq<nat>>, unsolved: seq<seq<nat>>)
      returns (kept: seq<seq<nat>>, hasChanged: bool)
      requires Fits(s, cells.Length) && FilledOnly(init, cells[..], s) && SmallCells(cells[..], s)
      requires Within(all, cells.Length) && forall k :: 0 <= k < |all| ==> Inside(s, cells.Length, all[k])
      requires forall t :: 0 <= t < |unsolved| ==> Inside(s, cells.Length, unsolved[t]) && unsolved[t] in all
      requires forall k :: 0 <= k < |all| && all[k] !in unsolved ==> Gaps(cells[..], all[k]) == 0
      requires ForcedIn(init, cells[..], all)
      modifies cells
      ensures FilledOnly(init, cells[..], s) && SmallCells(cells[..], s)
      ensures hasChanged ==> cells[..] != init
      ensures !hasChanged ==> cells[..] == old(cells[..])
      ensures forall u :: 0 <= u < |kept| ==> Inside(s, cells.Length, kept[u]) && kept[u] in all
      ensures ForcedIn(init, cells[..], all)
      ensures hasChanged ==> exists u :: 0 <= u < |unsolved| && Gaps(old(cells[..]), unsolved[u]) == 1
      ensures |kept| + (if hasChanged then 1 else 0) <= |unsolved|
      ensures forall k :: 0 <= k < |all| && all[k] !in kept ==> Gaps(cells[..], all[k]) == 0
      ensures !hasChanged ==> forall u :: 0 <= u < |kept| ==> Gaps(cells[..], kept[u]) != 1
    {
      hasChanged := false;
      kept := [];
      for t := 0 to |unsolved|
        invariant FilledOnly(init, cells[..], s) && SmallCells(cells[..], s)
        invariant hasChanged ==> cells[..] != init
        invariant forall u :: 0 <= u < |kept| ==> Inside(s, cells.Length, kept[u]) && kept[u] in all
        invariant ForcedIn(init, cells[..], all)
        invariant hasChanged ==> exists u :: 0 <= u < t && Gaps(old(cells[..]), unsolved[u]) == 1
        invariant |kept| + (if hasChanged then 1 else 0) <= t
        invariant forall k :: 0 <= k < |all| && all[k] !in kept && all[k] !in unsolved[t..] ==>
          Gaps(cells[..], all[k]) == 0
        invariant !hasChanged ==> cells[..] == old(cells[..])
        invariant !hasChanged ==> forall u :: 0 <= u < |kept| ==> Gaps(cells[..], kept[u]) != 1
      {
        SliceCons(unsolved, t);
        kept, hasChanged := SweepRound(init, s, all, unsolved[t], kept, unsolved[t + 1..], hasChanged);
      }
    }

    /** One region of a pass of `solve_trivial_regions`: the region is filled when it has one
        gap and kept when it still has a gap. Regions neither kept nor still ahead keep having
        no gaps, and a region with one gap is never kept by a pass that changes nothing. */
    method SweepRound(ghost init: seq<Byte>, s: Sudoku, ghost all: seq<seq<nat>>, region: seq<nat>, kept: seq<seq<nat>>,
                      ghost rest: seq<seq<nat>>, hasChanged: bool)
      returns (kept': seq<seq<nat>>, hasChanged': bool)
      requires Fits(s, cells.Length) && FilledOnly(init, cells[..], s) && SmallCells(cells[..], s)
      requires Within(all, cells.Length) && forall k :: 0 <= k < |all| ==> Inside(s, cells.Length, all[k])
      requires Inside(s, cells.Length, region) && forall u :: 0 <= u < |kept| ==> Inside(s, cells.Length, kept[u])
      requires region in all && forall u :: 0 <= u < |kept| ==> kept[u] in all
      requires ForcedIn(init, cells[..], all)
      requires forall k :: 0 <= k < |all| && all[k] !in kept && all[k] !in [region] + rest ==>
        Gaps(cells[..], all[k]) == 0
      requires hasChanged ==> cells[..] != init
      requires !hasChanged ==> forall u :: 0 <= u < |kept| ==> Gaps(cells[..], kept[u]) != 1
      modifies cells
      ensures FilledOnly(init, cells[..], s) && SmallCells(cells[..], s)
      ensures hasChanged' ==> cells[..] != init
      ensures !hasChanged' ==> !hasChanged && cells[..] == old(cells[..])
      ensures forall u :: 0 <= u < |kept'| ==> Inside(s, cells.Length, kept'[u]) && kept'[u] in all
      ensures ForcedIn(init, cells[..], all)
      ensures Gaps(old(cells[..]), region) != 1 ==> hasChanged' == hasChanged && cells[..] == old(cells[..])
      ensures |kept'| + (if hasChanged' then 1 else 0) <= |kept| + (if hasChanged then 1 else 0) + 1
      ensures forall k :: 0 <= k < |all| && all[k] !in kept' && all[k] !in rest ==>
        Gaps(cells[..], all[k]) == 0
      ensures !hasChanged' ==> forall u :: 0 <= u < |kept'| ==> Gaps(cells[..], kept'[u]) != 1
    {
      ghost var before := cells[..];
      var keep, wrote := RetainRegion(region);
      hasChanged', kept' := hasChanged, kept;
      if wrote {
        hasChanged' := true;
        WriteStep(init, before, cells[..], s, region, all, kept, rest);
        assert ForcedIn(init, cells[..], all) by {
          var k0 :| 0 <= k0 < |all| && all[k0] == region;
          var g :| 0 <= g < 9 && before[region[g]] == 0 &&
                   cells[..] == before[region[g] := MissingValue(Values(before, region))];
          ForcedWrite(init, before, all, k0, g);
        }
      } else if keep {
        kept' := kept + [region];
      }
    }
  }

  /** A suffix of a list is its first element followed by the rest. */
  lemma SliceCons<T>(xs: seq<T>, t: nat)
    requires t < |xs|
    ensures xs[t..] == [xs[t]] + xs[t + 1..]
  {
  }

  /** The first loop of the region test in `solve_trivial_regions`: the seen map of the
      region's values and the number of its gaps. */
  method Survey(cells: array<Byte>, region: seq<nat>) returns (seen: Seen, empties: nat)
    requires forall q :: 0 <= q < |region| ==> region[q] < cells.Length && cells[region[q]] < 16
    ensures Small(Values(cells[..], region)) && seen == SeenOf(Values(cells[..], region))
    ensures empties == Gaps(cells[..], region)
  {
    ghost var vs := Values(cells[..], region);
    seen, empties := NO_SEEN, 0;
    for t := 0 to |region|
      invariant Small(vs[..t]) && seen == SeenOf(vs[..t]) && empties == Gaps(cells[..], region[..t])
    {
      var value := cells[region[t]];
      SeenStep(vs, t);
      GapsStep(cells[..], region, t);
      seen := seen.Add(value);
      if value == 0 {
        empties := empties + 1;
      }
    }
    assert vs[..|region|] == vs && region[..|region|] == region;
  }

  /** Taking in one more value: it joins the seen map. */
  lemma SeenStep(vs: seq<int>, t: nat)
    requires t < |vs| && 0 <= vs[t] < 16 && Small(vs[..t])
    ensures Small(vs[..t + 1]) && SeenOf(vs[..t + 1]) == SeenOf(vs[..t]).Add(vs[t])
  {
    assert vs[..t + 1][..t] == vs[..t];
  }

  /** Taking in one more cell of the region: it counts as a gap when empty. */
  lemma GapsStep(c: seq<Byte>, region: seq<nat>, t: nat)
    requires t < |region| && region[t] < |c|
    ensures Gaps(c, region[..t + 1]) == Gaps(c, region[..t]) + (if c[region[t]] == 0 then 1 else 0)
  {
    assert region[..t + 1][..t] == region[..t];
  }

  /** The digit `solve_trivial_regions` writes into a region's one gap: the smallest of 1..9
      absent from the seen map (0 when none is). */
  method FirstUnseen(seen: Seen, ghost vs: seq<int>) returns (missing: Byte)
    requires Small(vs) && seen == SeenOf(vs)
    ensures missing == MissingValue(vs)
  {
    missing := 0;
    for v := 1 to 10
      invariant missing == 0 && forall w :: 1 <= w < v ==> w in vs
    {
      SeenOfContains(vs, v);
      if !seen.Contains(v) {
        missing := v;
        break;
      }
    }
  }

  /** The position in a region of its first empty cell. */
  method FindGap(cells: array<Byte>, region: seq<nat>) returns (g: nat)
    requires forall q :: 0 <= q < |region| ==> region[q] < cells.Length
    requires Gaps(cells[..], region) > 0
    ensures g < |region| && cells[region[g]] == 0
    ensures forall k :: 0 <= k < g ==> cells[region[k]] != 0
  {
    GapsPositive(cells[..], region);
    ghost var e :| 0 <= e < |region| && cells[..][region[e]] == 0;
    g := 0;
    while cells[region[g]] != 0
      invariant g <= e && forall k :: 0 <= k < g ==> cells[region[k]] != 0
      decreases |region| - g
    {
      g := g + 1;
    }
  }

  /** The row, column and block looked up for a cell of a puzzle lie inside the store. */
  lemma RegionsForInside(s: Sudoku, len: nat, i: nat)
    requires Fits(s, len) && InPuzzle(s, i)
    ensures forall k :: 0 <= k < 9 ==> RowFor(s, i)[k] < len && ColumnFor(s, i)[k] < len && BlockFor(s, i)[k] < len
  {
    var b := BlockIndexFor(s, i);
    RowInside(s, len, (i % 9) / 3 + b / 3 * 3);
    ColumnInside(s, len, i % 3 + (b % 3) * 3);
    BlockInside(s, len, b);
  }

  /** Filling the one gap of a region keeps the store's invariants of `solve_trivial_regions`:
      only empty puzzle cells change, to digits; the store now differs from the start; regions
      without gaps keep none and the filled region has none. */
  lemma WriteStep(init: seq<Byte>, before: seq<Byte>, after: seq<Byte>, s: Sudoku, region: seq<nat>,
                  all: seq<seq<nat>>, kept: seq<seq<nat>>, rest: seq<seq<nat>>)
    requires |s.blockStart| == 9 && Inside(s, |before|, region)
    requires FilledOnly(init, before, s) && SmallCells(before, s)
    requires forall k :: 0 <= k < |all| ==> forall q :: 0 <= q < |all[k]| ==> all[k][q] < |before|
    requires forall k :: 0 <= k < |all| && all[k] !in kept && all[k] !in [region] + rest ==> Gaps(before, all[k]) == 0
    requires Gaps(before, region) == 1
    requires exists g :: 0 <= g < 9 && before[region[g]] == 0 &&
                         after == before[region[g] := MissingValue(Values(before, region))]
    ensures FilledOnly(init, after, s) && SmallCells(after, s) && after != init
    ensures forall k :: 0 <= k < |all| && all[k] !in kept && all[k] !in rest ==> Gaps(after, all[k]) == 0
  {
    var g :| 0 <= g < 9 && before[region[g]] == 0 &&
      after == before[region[g] := MissingValue(Values(before, region))];
    FillGapCompletes(before, region, g);
    forall k | 0 <= k < |all| && all[k] !in kept && all[k] !in rest ensures Gaps(after, all[k]) == 0 {
      if all[k] != region {
        FillKeepsNoGaps(before, all[k], region[g], after[region[g]]);
      }
    }
    assert after[region[g]] != init[region[g]];
  }

  /** Filling a cell outside a forcing region, and other than the forced cell, keeps the
      forcing. */
  lemma ForcedFrame(c: seq<Byte>, region: seq<nat>, j: nat, t: nat, v: Byte)
    requires j < |c| && t < |c| && forall q :: 0 <= q < |region| ==> region[q] < |c|
    requires ForcedBy(c, region, j) && c[j] != 0 && c[t] == 0
    ensures ForcedBy(c[t := v], region, j)
  {
    var c2 := c[t := v];
    assert t !in region;
    assert Values(c2[j := 0], region) == Values(c[j := 0], region);
  }

  /** Writing the missing digit into the single gap of a region keeps every changed cell
      forced: the new one by that region, the earlier ones by theirs, which the write cannot
      touch since all their cells are filled. */
  lemma ForcedWrite(init: seq<Byte>, before: seq<Byte>, rs: seq<seq<nat>>, k0: nat, g: nat)
    requires |init| == |before| && Within(rs, |before|) && ForcedIn(init, before, rs)
    requires forall j :: 0 <= j < |before| && before[j] != init[j] ==> before[j] != 0
    requires k0 < |rs| && |rs[k0]| == 9 && Gaps(before, rs[k0]) == 1 && g < 9 && before[rs[k0][g]] == 0
    ensures ForcedIn(init, before[rs[k0][g] := MissingValue(Values(before, rs[k0]))], rs)
  {
    var t, v := rs[k0][g], MissingValue(Values(before, rs[k0]));
    var after := before[t := v];
    ForcedNew(before, rs[k0], g);
    forall j | 0 <= j < |after| && after[j] != init[j]
      ensures exists k :: 0 <= k < |rs| && ForcedBy(after, rs[k], j)
    {
      if j == t {
        assert ForcedBy(after, rs[k0], j);
      } else {
        ForcedKeep(before, rs, j, t, v);
      }
    }
  }

  /** A cell forced by some region stays forced when another, empty cell is filled. */
  lemma ForcedKeep(c: seq<Byte>, rs: seq<seq<nat>>, j: nat, t: nat, v: Byte)
    requires Within(rs, |c|) && j < |c| && t < |c| && c[j] != 0 && c[t] == 0
    requires exists k :: 0 <= k < |rs| && ForcedBy(c, rs[k], j)
    ensures exists k :: 0 <= k < |rs| && ForcedBy(c[t := v], rs[k], j)
  {
    var k :| 0 <= k < |rs| && ForcedBy(c, rs[k], j);
    ForcedFrame(c, rs[k], j, t, v);
  }

  /** The digit written into the single gap of a region is forced there by that region. */
  lemma ForcedNew(c: seq<Byte>, region: seq<nat>, g: nat)
    requires |region| == 9 && forall q :: 0 <= q < 9 ==> region[q] < |c|
    requires Gaps(c, region) == 1 && g < 9 && c[region[g]] == 0
    ensures ForcedBy(c[region[g] := MissingValue(Values(c, region))], region, region[g])
  {
    var t := region[g];
    var after := c[t := MissingValue(Values(c, region))];
    OneGap(c, region, g);
    assert after[t := 0] == c;
    assert forall q :: 0 <= q < 9 && region[q] != t ==> after[region[q]] == c[region[q]];
  }
}
