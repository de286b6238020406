/** `DfsBlock`: a resumable depth-first filler for one 3x3 block of the grid. Each of the nine
    positions of the block has a cursor into a fixed order of candidate values (`random`); a
    placement is accepted when the cell passes in its own puzzle and, for a corner block, also
    in the puzzle that shares the block. */
module DfsBlocks {
  import opened Common
  import opened GridLayout
  import opened GridRegion
  import opened Grid

  /** `c2` is `c` with some of its cells emptied. */
  predicate Emptied(c: seq<Byte>, c2: seq<Byte>)
  {
    |c2| == |c| && forall j :: 0 <= j < |c| ==> c2[j] == c[j] || c2[j] == 0
  }

  /** Emptying cells keeps a partially valid region partially valid: gaps are skipped. */
  lemma EmptiedKeepsValid(c: seq<Byte>, c2: seq<Byte>, region: seq<nat>)
    requires Emptied(c, c2) && RegionValid(c, region, true)
    ensures RegionValid(c2, region, true)
  {
    var vs, vs2 := Values(c, region), Values(c2, region);
    assert forall k :: 0 <= k < |region| ==> vs2[k] == vs[k] || vs2[k] == 0;
  }

  /** Emptying cells never makes a cell problematic. */
  lemma EmptiedKeepsUnproblematic(c: seq<Byte>, c2: seq<Byte>, s: Sudoku, j: nat)
    requires |s.blockStart| == 9 && InPuzzle(s, j) && Emptied(c, c2) && !CellIsProblematic(c, s, j)
    ensures !CellIsProblematic(c2, s, j)
  {
    EmptiedKeepsValid(c, c2, RowFor(s, j));
    EmptiedKeepsValid(c, c2, ColumnFor(s, j));
    EmptiedKeepsValid(c, c2, BlockFor(s, j));
  }

  /** The store with the cells of positions n..8 of the block starting at `start` emptied: what
      the search has settled so far, without the cells it has still to fill. */
  function Masked(c: seq<Byte>, start: nat, n: nat): (r: seq<Byte>)
    ensures Emptied(c, r)
    ensures forall j :: 0 <= j < |c| && !(start + n <= j < start + 9) ==> r[j] == c[j]
  {
    seq(|c|, j requires 0 <= j < |c| => if start + n <= j < start + 9 then 0 else c[j])
  }

  /** Two cells of one aligned block lie in the same nine-cell chunk of the store. */
  lemma SameChunk(start: nat, k: nat, n: nat)
    requires start % 9 == 0 && k < 9 && n < 9
    ensures (start + k) / 9 == (start + n) / 9
  {
    DivModUnique(start + k, 9, start / 9, k);
    DivModUnique(start + n, 9, start / 9, n);
  }

  /** A second write to the same cell overrides the first. */
  lemma UpdateTwice(c: seq<Byte>, j: nat, a: Byte, b: Byte)
    requires j < |c|
    ensures c[j := a][j := b] == c[j := b]
  {
  }

  /** Raising one value cursor raises the rank of the cursors, unless it stays put. */
  lemma RankRaise(vi1: seq<nat>, vi2: seq<nat>, j: nat)
    requires |vi1| == |vi2| && j < |vi1| && Digits(vi2, 10) && vi1[j] <= vi2[j]
    requires forall k :: 0 <= k < |vi1| && k != j ==> vi1[k] == vi2[k]
    ensures Rank(vi1, 10) < Rank(vi2, 10) || vi1 == vi2
  {
    if vi1[j] < vi2[j] {
      RankPointwiseLess(vi1, vi2, j, 10);
    } else {
      assert vi1 == vi2;
    }
  }

  /** The lowest position a backtrack cleared: above the resumed position, or all of them. */
  function Low(r: Result<()>, i: nat): nat
  {
    if r.Ok? then i + 1 else 0
  }

  /** Block b of a puzzle that fits the store: nine consecutive cells from an aligned start,
      all inside the store and all in the puzzle. */
  lemma BlockPlaced(s: Sudoku, len: nat, b: nat)
    requires Fits(s, len) && b < 9
    ensures Block(s, b)[0] % 9 == 0 && Block(s, b)[0] + 9 <= len
    ensures forall k :: 0 <= k < 9 ==> Block(s, b)[k] == Block(s, b)[0] + k && InPuzzle(s, Block(s, b)[k])
  {
    forall k | 0 <= k < 9 ensures InPuzzle(s, Block(s, b)[k]) {
      assert InBlock(s, b, Block(s, b)[k]);
    }
  }

  /** The puzzle sharing corner block b of the puzzle at (x, y) holds all nine of its cells. */
  lemma SharedPlaced(n: nat, m: nat, x: nat, y: nat, b: nat)
    requires 0 < n && 0 < m && x < n && y < m && b < 9 && Overlapping(n, m, (x, y), b).Some?
    ensures var o := Overlapping(n, m, (x, y), b).value;
      forall k :: 0 <= k < 9 ==> InPuzzle(NewSudoku(n, m, o.0, o.1), Block(NewSudoku(n, m, x, y), b)[k])
  {
    forall k | 0 <= k < 9
      ensures InPuzzle(NewSudoku(n, m, Overlapping(n, m, (x, y), b).value.0, Overlapping(n, m, (x, y), b).value.1),
                       Block(NewSudoku(n, m, x, y), b)[k])
    {
      OverlappingShares(n, m, x, y, b, k);
    }
  }

  class DfsBlock {
    const indexes: seq<nat>
    const sudokuCoords: Coords
    const otherSudokuCoords: Option<Coords>
    const random: seq<Byte>
    const valueIndex: array<nat>
    var backtracks: nat
    var i: nat
    /** The block number `new` was given. */
    ghost const block: nat
    /** The puzzle at `sudokuCoords`, and the one at `otherSudokuCoords` when there is one. */
    ghost const own: Sudoku
    ghost const other: Option<Sudoku>

    /** The block's nine cells are consecutive from an aligned start, and belong to the puzzle
        and, for a corner block, to the other puzzle too. */
    ghost predicate Placed()
    {
      Aligned(own) && |indexes| == 9 && indexes[0] % 9 == 0 &&
      (forall k :: 0 <= k < 9 ==> indexes[k] == indexes[0] + k && InPuzzle(own, indexes[k])) &&
      (other.Some? ==> Aligned(other.value) && forall k :: 0 <= k < 9 ==> InPuzzle(other.value, indexes[k]))
    }

    /** The block lies inside a store of `len` cells. */
    ghost predicate Laid(len: nat)
    {
      Placed() && indexes[0] + 9 <= len
    }

    /** The filler targets block `block` of the puzzle at `sudokuCoords` of grid `sg`, and the
        other puzzle is the one that shares that block, as `new` sets them up. */
    ghost predicate Wired(sg: SudokuGrid)
    {
      sg.Valid() && sudokuCoords.0 < sg.n && sudokuCoords.1 < sg.m && block < 9 &&
      own == sg.SudokuAt(sudokuCoords) && indexes == Block(own, block) &&
      otherSudokuCoords == Overlapping(sg.n, sg.m, sudokuCoords, block) &&
      (if otherSudokuCoords.Some? then
         OverlappingShares(sg.n, sg.m, sudokuCoords.0, sudokuCoords.1, block, 0);
         other == Some(sg.SudokuAt(otherSudokuCoords.value))
       else other.None?) &&
      Laid(sg.cells.Length) && valueIndex.Length == 9
    }

    /** The cursors between calls: the cursor is at most 9, every value cursor points into the
        nine candidates, and the positions above the cursor have their value cursors at 0. */
    ghost predicate Cursors()
      reads this, valueIndex
    {
      valueIndex.Length == 9 && i <= 9 &&
      (forall k :: 0 <= k < 9 ==> valueIndex[k] <= 8) &&
      (forall k :: i < k < 9 ==> valueIndex[k] == 0)
    }

    /** The state between calls. */
    ghost predicate Valid(sg: SudokuGrid)
      reads this, valueIndex
    {
      Wired(sg) && Cursors()
    }

    /** Position k of the block passes in its puzzle and, for a corner block, in the other one. */
    ghost predicate Passes(c: seq<Byte>, k: nat)
      requires Laid(|c|) && k < 9
    {
      !GridRegion.CellIsProblematic(c, own, indexes[k]) &&
      (other.Some? ==> !GridRegion.CellIsProblematic(c, other.value, indexes[k]))
    }

    /** Position k, one of the first n, holds the candidate its value cursor points at and
        passes in the store with the block's positions from n on emptied. */
    ghost predicate SettledAt(c: seq<Byte>, vi: seq<nat>, n: nat, k: nat)
      requires Laid(|c|) && |vi| == 9 && k < n <= 9
    {
      vi[k] < |random| && c[indexes[k]] == random[vi[k]] && Passes(Masked(c, indexes[0], n), k)
    }

    /** Every candidate from cursor `lo` up to (not including) `hi`, written into position k
        of `c`, fails there. */
    ghost predicate Skipped(c: seq<Byte>, k: nat, lo: nat, hi: nat)
      requires Laid(|c|) && k < 9 && hi <= |random|
    {
      forall v :: lo <= v < hi ==> !Passes(c[indexes[k] := random[v]], k)
    }

    /** One more failing candidate extends the skipped range by one. */
    lemma SkippedStep(c: seq<Byte>, k: nat, lo: nat, v: nat)
      requires Laid(|c|) && k < 9 && v < |random|
      requires Skipped(c, k, lo, v) && !Passes(c[indexes[k] := random[v]], k)
      ensures Skipped(c, k, lo, v + 1)
    {
    }

    /** Positions 0..n-1 are settled. */
    ghost predicate Settled(c: seq<Byte>, vi: seq<nat>, n: nat)
      requires Laid(|c|) && |vi| == 9 && n <= 9
    {
      forall k :: 0 <= k < n ==> SettledAt(c, vi, n, k)
    }

    /** Settled positions stay settled when only later positions change, and when the settled
        prefix shrinks. */
    lemma SettledKeep(c: seq<Byte>, vi: seq<nat>, n: nat, c2: seq<Byte>, vi2: seq<nat>, n2: nat)
      requires Laid(|c|) && |vi| == 9 && n2 <= n <= 9
      requires Settled(c, vi, n)
      requires |c2| == |c| && |vi2| == 9 && forall k :: 0 <= k < n2 ==> vi2[k] == vi[k]
      requires forall j :: 0 <= j < |c| && !(indexes[0] + n2 <= j < indexes[0] + 9) ==> c2[j] == c[j]
      ensures Settled(c2, vi2, n2)
    {
      var start := indexes[0];
      var m, m2 := Masked(c, start, n), Masked(c2, start, n2);
      assert m2 == Masked(c, start, n2);
      assert Emptied(m, m2);
      forall k | 0 <= k < n2 ensures SettledAt(c2, vi2, n2, k) {
        assert SettledAt(c, vi, n, k);
        EmptiedKeepsUnproblematic(m, m2, own, indexes[k]);
        if other.Some? {
          EmptiedKeepsUnproblematic(m, m2, other.value, indexes[k]);
        }
      }
    }

    /** Accepting position n, which holds its candidate and passes, settles one more position:
        every earlier position keeps passing, because each region holding both cells is one
        that the check of position n passed. */
    lemma SettledAccept(c: seq<Byte>, vi: seq<nat>, n: nat)
      requires Laid(|c|) && |vi| == 9 && n < 9
      requires Settled(c, vi, n)
      requires vi[n] < |random| && c[indexes[n]] == random[vi[n]] && Passes(c, n)
      ensures Settled(c, vi, n + 1)
    {
      var start := indexes[0];
      var m, m1 := Masked(c, start, n), Masked(c, start, n + 1);
      var t, v := indexes[n], c[indexes[n]];
      assert m1 == m[t := v];
      EmptiedKeepsUnproblematic(c, m1, own, t);
      if other.Some? {
        EmptiedKeepsUnproblematic(c, m1, other.value, t);
      }
      var n1 := n + 1;
      forall k | 0 <= k < n ensures SettledAt(c, vi, n1, k) {
        assert SettledAt(c, vi, n, k);
        SameChunk(start, k, n);
        WriteKeepsUnproblematic(m, own, indexes[k], t, v);
        if other.Some? {
          WriteKeepsUnproblematic(m, other.value, indexes[k], t, v);
        }
      }
      assert SettledAt(c, vi, n + 1, n);
    }

    /** A block that `next_solution` has settled completely is ready to be resumed: its first
        eight positions are settled, which is what a resumed search relies on. */
    lemma ResumeReady(c: seq<Byte>, vi: seq<nat>)
      requires Laid(|c|) && |vi| == 9
      requires Settled(c, vi, 9)
      ensures Settled(c, vi, 8)
    {
      SettledKeep(c, vi, 9, c, vi, 8);
    }

    /** Positions below `low` kept their cells from `c0` and their value cursors from `vi0`;
        the positions from `low` on hold the candidates their value cursors point at. */
    ghost predicate RefilledFrom(c0: seq<Byte>, vi0: seq<nat>, c: seq<Byte>, vi: seq<nat>, low: nat)
      requires Laid(|c|) && |c0| == |c| && |vi0| == |vi| == 9
    {
      (forall k :: 0 <= k < low && k < 9 ==> c[indexes[k]] == c0[indexes[k]] && vi[k] == vi0[k]) &&
      (forall k :: low <= k < 9 ==> vi[k] < |random| && c[indexes[k]] == random[vi[k]])
    }

    /** The block's positions up to `reach` are empty; those above it kept their cells from `c0`. */
    ghost predicate EmptiedThrough(c0: seq<Byte>, c: seq<Byte>, reach: nat)
      requires Laid(|c|) && |c0| == |c|
    {
      reach < 9 && forall k :: 0 <= k < 9 ==> c[indexes[k]] == (if k <= reach then 0 else c0[indexes[k]])
    }

    /** The store changed only inside the block. */
    ghost predicate SameOutside(c0: seq<Byte>, c: seq<Byte>)
      requires Laid(|c0|)
    {
      |c| == |c0| && forall j :: 0 <= j < |c| && !(indexes[0] <= j < indexes[0] + 9) ==> c[j] == c0[j]
    }

    /** The bookkeeping of a running `next_solution` that started from `c0` and `vi0`, with
        the cursor at i, for position k: a position below `low` is untouched, one from `low` up
        to the cursor holds its candidate, one after the cursor up to `reach` has been emptied,
        and one after `reach` is untouched. */
    ghost predicate ProgressAt(c0: seq<Byte>, vi0: seq<nat>, c: seq<Byte>, vi: seq<nat>, i: nat, low: nat, reach: nat,
                               k: nat)
      requires Laid(|c|) && |c0| == |c| && |vi0| == |vi| == 9 && k < 9
    {
      (k < low ==> c[indexes[k]] == c0[indexes[k]] && vi[k] == vi0[k]) &&
      (low <= k < i ==> vi[k] < |random| && c[indexes[k]] == random[vi[k]]) &&
      (i < k <= reach ==> c[indexes[k]] == 0) &&
      (reach < k ==> c[indexes[k]] == c0[indexes[k]])
    }

    /** The bookkeeping of a running `next_solution`, for every position. */
    ghost predicate Progress(c0: seq<Byte>, vi0: seq<nat>, c: seq<Byte>, vi: seq<nat>, i: nat, low: nat, reach: nat)
      requires Laid(|c|) && |c0| == |c| && |vi0| == |vi| == 9
    {
      low <= i <= 9 && reach < 9 && (i < 9 ==> i <= reach) &&
      forall k :: 0 <= k < 9 ==> ProgressAt(c0, vi0, c, vi, i, low, reach, k)
    }

    /** Writing a candidate at the cursor keeps the bookkeeping. */
    lemma ProgressTry(c0: seq<Byte>, vi0: seq<nat>, c: seq<Byte>, vi: seq<nat>, i: nat, low: nat, reach: nat,
                      c2: seq<Byte>, vi2: seq<nat>)
      requires Laid(|c|) && |c0| == |c| && |vi0| == |vi| == |vi2| == 9 && i < 9
      requires Progress(c0, vi0, c, vi, i, low, reach)
      requires vi2[i] < |random| && c2 == c[indexes[i] := random[vi2[i]]]
      requires forall k :: 0 <= k < 9 && k != i ==> vi2[k] == vi[k]
      ensures Progress(c0, vi0, c2, vi2, i, low, reach)
    {
      forall k | 0 <= k < 9 ensures ProgressAt(c0, vi0, c2, vi2, i, low, reach, k) {
        assert ProgressAt(c0, vi0, c, vi, i, low, reach, k);
      }
    }

    /** Accepting the cursor's candidate moves the cursor on, and `reach` with it. */
    lemma ProgressAccept(c0: seq<Byte>, vi0: seq<nat>, c: seq<Byte>, vi: seq<nat>, i: nat, low: nat, reach: nat)
      requires Laid(|c|) && |c0| == |c| && |vi0| == |vi| == 9 && i < 9
      requires Progress(c0, vi0, c, vi, i, low, reach)
      requires vi[i] < |random| && c[indexes[i]] == random[vi[i]]
      ensures Progress(c0, vi0, c, vi, i + 1, low, if i + 1 < 9 && reach < i + 1 then i + 1 else reach)
    {
      var reach2 := if i + 1 < 9 && reach < i + 1 then i + 1 else reach;
      var i1 := i + 1;
      forall k | 0 <= k < 9 ensures ProgressAt(c0, vi0, c, vi, i1, low, reach2, k) {
        assert ProgressAt(c0, vi0, c, vi, i, low, reach, k);
      }
    }

    /** A backtrack to position i2 keeps the bookkeeping, with `low` lowered to i2 if need be. */
    lemma ProgressBacktrack(c0: seq<Byte>, vi0: seq<nat>, c: seq<Byte>, vi: seq<nat>, i: nat, low: nat, reach: nat,
                            c2: seq<Byte>, vi2: seq<nat>, i2: nat)
      requires Laid(|c|) && |c0| == |c| == |c2| && |vi0| == |vi| == |vi2| == 9
      requires i < 9 && i2 <= i && Progress(c0, vi0, c, vi, i, low, reach)
      requires forall k :: 0 <= k < 9 && k != i2 && !(i2 < k <= i) ==> vi2[k] == vi[k]
      requires forall j :: 0 <= j < |c| ==> c2[j] == (if indexes[0] + i2 + 1 <= j <= indexes[0] + i then 0 else c[j])
      ensures Progress(c0, vi0, c2, vi2, i2, Min(low, i2), reach)
    {
      forall k | 0 <= k < 9 ensures ProgressAt(c0, vi0, c2, vi2, i2, Min(low, i2), reach, k) {
        assert ProgressAt(c0, vi0, c, vi, i, low, reach, k);
      }
    }

    /** A backtrack that runs out empties every position up to the cursor, and so up to `reach`. */
    lemma ProgressExhausted(c0: seq<Byte>, vi0: seq<nat>, c: seq<Byte>, vi: seq<nat>, i: nat, low: nat, reach: nat,
                            c2: seq<Byte>)
      requires Laid(|c|) && |c0| == |c| == |c2| && |vi0| == |vi| == 9
      requires i < 9 && Progress(c0, vi0, c, vi, i, low, reach)
      requires forall j :: 0 <= j < |c| ==> c2[j] == (if indexes[0] <= j <= indexes[0] + i then 0 else c[j])
      ensures EmptiedThrough(c0, c2, reach)
    {
      forall k | 0 <= k < 9 ensures c2[indexes[k]] == (if k <= reach then 0 else c0[indexes[k]]) {
        assert ProgressAt(c0, vi0, c, vi, i, low, reach, k);
      }
    }

    /** A run whose cursor has reached 9 has refilled every position from `low` on. */
    lemma ProgressDone(c0: seq<Byte>, vi0: seq<nat>, c: seq<Byte>, vi: seq<nat>, low: nat, reach: nat)
      requires Laid(|c|) && |c0| == |c| && |vi0| == |vi| == 9
      requires Progress(c0, vi0, c, vi, 9, low, reach)
      ensures low <= 9 && RefilledFrom(c0, vi0, c, vi, low)
    {
      forall k | 0 <= k < 9 ensures k < low ==> c[indexes[k]] == c0[indexes[k]] && vi[k] == vi0[k] {
        assert ProgressAt(c0, vi0, c, vi, 9, low, reach, k);
      }
      forall k | low <= k < 9 ensures vi[k] < |random| && c[indexes[k]] == random[vi[k]] {
        assert ProgressAt(c0, vi0, c, vi, 9, low, reach, k);
      }
    }

    /** A call that starts below 9 starts with nothing revisited and nothing emptied. */
    lemma ProgressStart(c0: seq<Byte>, vi0: seq<nat>, i: nat)
      requires Laid(|c0|) && |vi0| == 9 && i < 9
      ensures Progress(c0, vi0, c0, vi0, i, i, i)
    {
      forall k | 0 <= k < 9 ensures ProgressAt(c0, vi0, c0, vi0, i, i, i, k) {
      }
    }

    /** The grid facts behind `Laid`: the block `new` picked out lies inside the store, and
        its cells belong to both puzzles that share it. */
    lemma PlacedInGrid(sg: SudokuGrid)
      requires sg.Valid() && sudokuCoords.0 < sg.n && sudokuCoords.1 < sg.m && block < 9
      requires own == sg.SudokuAt(sudokuCoords) && indexes == Block(own, block)
      requires otherSudokuCoords == Overlapping(sg.n, sg.m, sudokuCoords, block)
      requires otherSudokuCoords.None? ==> other.None?
      requires otherSudokuCoords.Some? ==>
                 otherSudokuCoords.value.0 < sg.n && otherSudokuCoords.value.1 < sg.m &&
                 other == Some(sg.SudokuAt(otherSudokuCoords.value))
      ensures Laid(sg.cells.Length)
    {
      BlockPlaced(own, sg.cells.Length, block);
      if otherSudokuCoords.Some? {
        SharedPlaced(sg.n, sg.m, sudokuCoords.0, sudokuCoords.1, block);
      }
    }

    /** `DfsBlock::new`: the target block's nine cells, the puzzle sharing a corner block, all
        cursors at 0 and no backtracks. */
    constructor New(sg: SudokuGrid, sudokuCoords: Coords, i: nat, random: seq<Byte>)
      requires sg.Valid() && sudokuCoords.0 < sg.n && sudokuCoords.1 < sg.m && i < 9
      ensures Valid(sg) && block == i && this.sudokuCoords == sudokuCoords && this.random == random
      ensures indexes == Block(sg.SudokuAt(sudokuCoords), i)
      ensures otherSudokuCoords == Overlapping(sg.n, sg.m, sudokuCoords, i)
      ensures this.i == 0 && backtracks == 0 && forall k :: 0 <= k < 9 ==> valueIndex[k] == 0
      ensures fresh(valueIndex)
    {
      var s := sg.SudokuAt(sudokuCoords);
      var coords := Overlapping(sg.n, sg.m, sudokuCoords, i);
      ghost var shared: Option<Sudoku> := None;
      if coords.Some? {
        OverlappingShares(sg.n, sg.m, sudokuCoords.0, sudokuCoords.1, i, 0);
        shared := Some(sg.SudokuAt(coords.value));
      }
      indexes := Block(s, i);
      this.sudokuCoords := sudokuCoords;
      otherSudokuCoords := coords;
      this.random := random;
      valueIndex := new nat[9](_ => 0);
      backtracks := 0;
      this.i := 0;
      block := i;
      own := s;
      other := shared;
      new;
      PlacedInGrid(sg);
    }

    /** The acceptance test of `next_solution`: position k is problematic in its own puzzle
        or, for a corner block, in the puzzle sharing it. */
    method Clashes(sg: SudokuGrid, k: nat) returns (clash: bool)
      requires Wired(sg) && k < 9
      ensures clash == !Passes(sg.cells[..], k)
    {
      clash := sg.CellIsProblematic(sudokuCoords, indexes[k]);
      if !clash && otherSudokuCoords.Some? {
        clash := sg.CellIsProblematic(otherSudokuCoords.value, indexes[k]);
      }
    }

    /** `DfsBlock::backtrack`: count one backtrack, then empty and reset every position from the
        cursor down whose value cursor is exhausted (at 8 or beyond); stop with `NoSolution`
        once position 0 is emptied, otherwise advance the value cursor of the position reached.
        Only the emptied cells change. */
    method Backtrack(sg: SudokuGrid) returns (r: Result<()>)
      requires Laid(sg.cells.Length) && valueIndex.Length == 9 && i < 9
      requires forall k :: 0 <= k < 9 ==> valueIndex[k] <= 9
      modifies this, valueIndex, sg.cells
      ensures backtracks == old(backtracks) + 1 && i <= old(i)
      ensures r.NoSolution? ==> i == 0
      ensures r.Ok? ==> old(valueIndex[..])[i] < 8
      ensures forall k :: Low(r, i) <= k <= old(i) ==> old(valueIndex[k]) >= 8
      ensures forall k :: 0 <= k < 9 ==>
        valueIndex[k] == (if Low(r, i) <= k <= old(i) then 0
                          else if r.Ok? && k == i then old(valueIndex[k]) + 1
                          else old(valueIndex[k]))
      ensures forall j :: 0 <= j < sg.cells.Length ==>
        sg.cells[j] == (if indexes[0] + Low(r, i) <= j <= indexes[0] + old(i) then 0 else old(sg.cells[j]))
      ensures r.Ok? ==> Rank(old(valueIndex[..]), 10) < Rank(valueIndex[..], 10)
    {
      ghost var vi0 := valueIndex[..];
      backtracks := backtracks + 1;
      while valueIndex[i] >= 8
        invariant i <= old(i) && backtracks == old(backtracks) + 1
        invariant forall k :: 0 <= k < 9 ==> valueIndex[k] == (if i < k <= old(i) then 0 else old(valueIndex[k]))
        invariant forall k :: i < k <= old(i) ==> old(valueIndex[k]) >= 8
        invariant forall j :: 0 <= j < sg.cells.Length ==>
          sg.cells[j] == (if indexes[0] + i < j <= indexes[0] + old(i) then 0 else old(sg.cells[j]))
        decreases i
      {
        sg.cells[indexes[i]] := 0;
        valueIndex[i] := 0;
        if i == 0 {
          return NoSolution;
        }
        i := i - 1;
      }
      ghost var vi1 := valueIndex[..];
      valueIndex[i] := valueIndex[i] + 1;
      assert valueIndex[..] == vi1[i := vi1[i] + 1];
      RankPointwiseLess(vi0, valueIndex[..], i, 10);
      return Ok(());
    }

    /** Write the candidate the cursor's value cursor points at into the position under the
        cursor, and report whether it clashes. */
    method Place(sg: SudokuGrid) returns (clash: bool)
      requires Wired(sg) && i < 9 && valueIndex[i] < |random|
      modifies sg.cells
      ensures sg.cells[..] == old(sg.cells[..])[indexes[i] := random[valueIndex[i]]]
      ensures clash == !Passes(sg.cells[..], i)
    {
      sg.cells[indexes[i]] := random[valueIndex[i]];
      clash := Clashes(sg, i);
    }

    /** The inner loop of `next_solution` for the position under the cursor: write the
        candidate its value cursor points at, and while that clashes and the cursor is below 8,
        advance the cursor and write the next one. It reports whether the last write clashes. */
    method TryPosition(sg: SudokuGrid) returns (clash: bool)
      requires Valid(sg) && i < 9 && |random| >= 9
      modifies valueIndex, sg.cells
      ensures Cursors()
      ensures sg.cells[..] == old(sg.cells[..])[indexes[i] := random[valueIndex[i]]]
      ensures forall k :: 0 <= k < 9 && k != i ==> valueIndex[k] == old(valueIndex[k])
      ensures old(valueIndex[i]) <= valueIndex[i]
      ensures clash == !Passes(sg.cells[..], i)
      ensures clash ==> valueIndex[i] == 8
      ensures Skipped(old(sg.cells[..]), i, old(valueIndex[i]), valueIndex[i])
    {
      ghost var vi0 := valueIndex[..];
      ghost var c0 := sg.cells[..];
      var index := indexes[i];
      clash := Place(sg);
      while clash && valueIndex[i] < 8
        modifies valueIndex, sg.cells
        invariant Wired(sg) && Cursors()
        invariant sg.cells[..] == c0[index := random[valueIndex[i]]]
        invariant forall k :: 0 <= k < 9 && k != i ==> valueIndex[k] == vi0[k]
        invariant vi0[i] <= valueIndex[i]
        invariant clash == !Passes(sg.cells[..], i)
        invariant Skipped(c0, i, vi0[i], valueIndex[i])
        decreases 8 - valueIndex[i]
      {
        SkippedStep(c0, i, vi0[i], valueIndex[i]);
        valueIndex[i] := valueIndex[i] + 1;
        clash := Place(sg);
        UpdateTwice(c0, index, random[valueIndex[i] - 1], random[valueIndex[i]]);
      }
    }

    /** The backtracking branch of the outer loop of `next_solution`, taken when no candidate
        passes at the cursor: the bookkeeping of the running call is kept with `low` lowered
        to where the cursor lands, and the value cursors rise. */
    method Retreat(sg: SudokuGrid, ghost c0: seq<Byte>, ghost vi0: seq<nat>, ghost ready: bool,
                   ghost low: nat, ghost reach: nat)
      returns (r: Result<()>, ghost low2: nat)
      requires Laid(sg.cells.Length) && Cursors() && i < 9 && |c0| == sg.cells.Length && |vi0| == 9
      requires SameOutside(c0, sg.cells[..])
      requires Progress(c0, vi0, sg.cells[..], valueIndex[..], i, low, reach)
      requires ready ==> Settled(sg.cells[..], valueIndex[..], i)
      modifies this, valueIndex, sg.cells
      ensures Cursors() && old(backtracks) <= backtracks
      ensures SameOutside(c0, sg.cells[..])
      ensures r.NoSolution? ==> i == 0 && forall k :: 0 <= k < 9 ==> valueIndex[k] == 0
      ensures r.NoSolution? ==> EmptiedThrough(c0, sg.cells[..], reach)
      ensures r.Ok? ==> low2 <= low && Progress(c0, vi0, sg.cells[..], valueIndex[..], i, low2, reach)
      ensures r.Ok? && ready ==> Settled(sg.cells[..], valueIndex[..], i)
      ensures r.Ok? ==> Rank(old(valueIndex[..]), 10) < Rank(valueIndex[..], 10)
      ensures i <= old(i)
    {
      ghost var c1, vi1, i1 := sg.cells[..], valueIndex[..], i;
      r := Backtrack(sg);
      if r.NoSolution? {
        ProgressExhausted(c0, vi0, c1, vi1, i1, low, reach, sg.cells[..]);
        return r, low;
      }
      ProgressBacktrack(c0, vi0, c1, vi1, i1, low, reach, sg.cells[..], valueIndex[..], i);
      if ready {
        SettledKeep(c1, vi1, i1, sg.cells[..], valueIndex[..], i);
      }
      low2 := Min(low, i);
    }

    /** The resumption of `next_solution` after a complete fill (cursor at 9): the cursor goes
        back to the last position with its next candidate, backtracking when that position has
        none left. */
    method Resume(sg: SudokuGrid, ghost ready: bool) returns (r: Result<()>, ghost low: nat)
      requires Laid(sg.cells.Length) && Cursors() && i == 9
      requires ready ==> Settled(sg.cells[..], valueIndex[..], 8)
      modifies this, valueIndex, sg.cells
      ensures Cursors() && old(backtracks) <= backtracks
      ensures SameOutside(old(sg.cells[..]), sg.cells[..])
      ensures r.NoSolution? ==> i == 0 && forall k :: 0 <= k < 9 ==> valueIndex[k] == 0
      ensures r.NoSolution? ==> EmptiedThrough(old(sg.cells[..]), sg.cells[..], 8)
      ensures r.Ok? ==> low <= 8 && Progress(old(sg.cells[..]), old(valueIndex[..]), sg.cells[..], valueIndex[..], i, low, 8)
      ensures r.Ok? && ready ==> Settled(sg.cells[..], valueIndex[..], i)
      ensures old(valueIndex[8]) < 7 ==>
        r.Ok? && i == 8 && backtracks == old(backtracks) && sg.cells[..] == old(sg.cells[..]) &&
        valueIndex[..] == old(valueIndex[..])[8 := old(valueIndex[8]) + 1]
      ensures old(valueIndex[8]) >= 7 ==> backtracks == old(backtracks) + 1
      ensures r.Ok? && old(valueIndex[8]) >= 7 ==>
        i < 8 && valueIndex[i] == old(valueIndex[..])[i] + 1 &&
        (forall k :: 0 <= k < i ==> valueIndex[k] == old(valueIndex[k])) &&
        (forall k :: i < k < 9 ==> valueIndex[k] == 0) &&
        (forall k :: i < k < 8 ==> old(valueIndex[k]) == 8)
    {
      ghost var c0, vi0 := sg.cells[..], valueIndex[..];
      i := 8;
      valueIndex[i] := valueIndex[i] + 1;
      ghost var vi1 := valueIndex[..];
      if ready {
        SettledKeep(c0, vi0, 8, c0, vi1, 8);
      }
      low := 8;
      if valueIndex[i] >= 8 {
        r := Backtrack(sg);
        if r.NoSolution? {
          ProgressExhausted(c0, vi0, c0, vi1, 8, 8, 8, sg.cells[..]);
          return;
        }
        assert forall k :: i < k < 8 ==> vi1[k] == vi0[k] && vi0[k] <= 8;
        ProgressBacktrack(c0, vi0, c0, vi1, 8, 8, 8, sg.cells[..], valueIndex[..], i);
        if ready {
          SettledKeep(c0, vi1, 8, sg.cells[..], valueIndex[..], i);
        }
        low := i;
      } else {
        r := Ok(());
      }
    }

    /** Trying position i (store and value cursors `c1`, `vi1` before, `c2`, `vi2` after) keeps
        the bookkeeping of the running call and does not lower the value cursors. */
    lemma TryKept(c0: seq<Byte>, vi0: seq<nat>, ready: bool, low: nat, reach: nat,
                  c1: seq<Byte>, vi1: seq<nat>, c2: seq<Byte>, vi2: seq<nat>, i: nat)
      requires Laid(|c1|) && |c0| == |c1| && |vi0| == |vi1| == |vi2| == 9 && i < 9 && Digits(vi2, 10)
      requires Progress(c0, vi0, c1, vi1, i, low, reach) && (ready ==> Settled(c1, vi1, i))
      requires vi2[i] < |random| && c2 == c1[indexes[i] := random[vi2[i]]]
      requires forall k :: 0 <= k < 9 && k != i ==> vi2[k] == vi1[k]
      requires vi1[i] <= vi2[i]
      ensures Progress(c0, vi0, c2, vi2, i, low, reach) && (ready ==> Settled(c2, vi2, i))
      ensures Rank(vi1, 10) < Rank(vi2, 10) || vi1 == vi2
    {
      RankRaise(vi1, vi2, i);
      ProgressTry(c0, vi0, c1, vi1, i, low, reach, c2, vi2);
      if ready {
        SettledKeep(c1, vi1, i, c2, vi2, i);
      }
    }

    /** Accepting the candidate at position i moves the bookkeeping of the running call on by
        one position. */
    lemma AcceptKept(c0: seq<Byte>, vi0: seq<nat>, ready: bool, low: nat, reach: nat,
                     c: seq<Byte>, vi: seq<nat>, i: nat)
      requires Laid(|c|) && |c0| == |c| && |vi0| == |vi| == 9 && i < 9
      requires Progress(c0, vi0, c, vi, i, low, reach)
      requires vi[i] < |random| && c[indexes[i]] == random[vi[i]]
      requires ready ==> Settled(c, vi, i) && Passes(c, i)
      ensures Progress(c0, vi0, c, vi, i + 1, low, if i + 1 < 9 && reach < i + 1 then i + 1 else reach)
      ensures ready ==> Settled(c, vi, i + 1)
    {
      ProgressAccept(c0, vi0, c, vi, i, low, reach);
      if ready {
        SettledAccept(c, vi, i);
      }
    }

    /** The second half of a round of the outer loop of `next_solution`, once the position
        under the cursor has been tried (its store and value cursors were `c1` and `vi1`
        before): move the cursor on when the candidate passes, or backtrack when it clashes.
        The bookkeeping of the running call is kept. */
    method Decide(sg: SudokuGrid, ghost c0: seq<Byte>, ghost vi0: seq<nat>, ghost ready: bool,
                  ghost low: nat, ghost reach: nat, ghost c1: seq<Byte>, ghost vi1: seq<nat>, clash: bool)
      returns (r: Result<()>, ghost low2: nat, ghost reach2: nat)
      requires Laid(sg.cells.Length) && Cursors() && |random| >= 9 && i < 9
      requires |c0| == |c1| == sg.cells.Length && |vi0| == |vi1| == 9
      requires SameOutside(c0, c1) && Progress(c0, vi0, c1, vi1, i, low, reach)
      requires ready ==> Settled(c1, vi1, i)
      requires sg.cells[..] == c1[indexes[i] := random[valueIndex[i]]]
      requires forall k :: 0 <= k < 9 && k != i ==> valueIndex[k] == vi1[k]
      requires vi1[i] <= valueIndex[i]
      requires clash == !Passes(sg.cells[..], i)
      modifies this, valueIndex, sg.cells
      ensures Cursors() && old(backtracks) <= backtracks
      ensures SameOutside(c0, sg.cells[..])
      ensures r.NoSolution? ==> i == 0 && forall k :: 0 <= k < 9 ==> valueIndex[k] == 0
      ensures r.NoSolution? ==> EmptiedThrough(c0, sg.cells[..], reach)
      ensures r.Ok? ==> low2 <= low && Progress(c0, vi0, sg.cells[..], valueIndex[..], i, low2, reach2)
      ensures r.Ok? && ready ==> Settled(sg.cells[..], valueIndex[..], i)
      ensures r.Ok? ==> Rank(vi1, 10) < Rank(valueIndex[..], 10) || (vi1 == valueIndex[..] && i == old(i) + 1)
      ensures !clash ==> r.Ok? && i == old(i) + 1 && valueIndex[..] == old(valueIndex[..]) &&
                         sg.cells[..] == old(sg.cells[..])
      ensures clash ==> i <= old(i)
    {
      ghost var c2, vi2 := sg.cells[..], valueIndex[..];
      TryKept(c0, vi0, ready, low, reach, c1, vi1, c2, vi2, i);
      if clash {
        // no candidate passes: back up to the latest position with one left
        r, low2 := Retreat(sg, c0, vi0, ready, low, reach);
        return r, low2, reach;
      }
      reach2 := Advance(sg, c0, vi0, ready, low, reach);
      return Ok(()), low, reach2;
    }

    /** The accepting branch of the outer loop of `next_solution`: the candidate at the cursor
        passes, and the cursor moves on to the next position, the bookkeeping with it. */
    method Advance(sg: SudokuGrid, ghost c0: seq<Byte>, ghost vi0: seq<nat>, ghost ready: bool,
                   ghost low: nat, ghost reach: nat)
      returns (ghost reach2: nat)
      requires Laid(sg.cells.Length) && Cursors() && i < 9 && |c0| == sg.cells.Length && |vi0| == 9
      requires Progress(c0, vi0, sg.cells[..], valueIndex[..], i, low, reach)
      requires valueIndex[i] < |random| && sg.cells[indexes[i]] == random[valueIndex[i]]
      requires ready ==> Settled(sg.cells[..], valueIndex[..], i) && Passes(sg.cells[..], i)
      modifies this
      ensures i == old(i) + 1 && backtracks == old(backtracks) && Cursors()
      ensures Progress(c0, vi0, sg.cells[..], valueIndex[..], i, low, reach2)
      ensures ready ==> Settled(sg.cells[..], valueIndex[..], i)
    {
      AcceptKept(c0, vi0, ready, low, reach, sg.cells[..], valueIndex[..], i);
      reach2 := if i + 1 < 9 && reach < i + 1 then i + 1 else reach;
      i := i + 1;
    }

    /** One round of the outer loop of `next_solution`: try the position under the cursor,
        then move the cursor on when its candidate passes, or backtrack when none does. The
        bookkeeping of the running call is kept, and each round either raises the value
        cursors or, leaving them alone, moves the cursor on. */
    method Step(sg: SudokuGrid, ghost c0: seq<Byte>, ghost vi0: seq<nat>, ghost ready: bool,
                ghost low: nat, ghost reach: nat)
      returns (r: Result<()>, ghost low2: nat, ghost reach2: nat)
      requires Valid(sg) && |random| >= 9 && i < 9 && |c0| == sg.cells.Length && |vi0| == 9
      requires SameOutside(c0, sg.cells[..])
      requires Progress(c0, vi0, sg.cells[..], valueIndex[..], i, low, reach)
      requires ready ==> Settled(sg.cells[..], valueIndex[..], i)
      modifies this, valueIndex, sg.cells
      ensures Cursors() && old(backtracks) <= backtracks
      ensures SameOutside(c0, sg.cells[..])
      ensures r.NoSolution? ==> i == 0 && forall k :: 0 <= k < 9 ==> valueIndex[k] == 0
      ensures r.NoSolution? ==> EmptiedThrough(c0, sg.cells[..], reach)
      ensures r.Ok? ==> low2 <= low && Progress(c0, vi0, sg.cells[..], valueIndex[..], i, low2, reach2)
      ensures r.Ok? && ready ==> Settled(sg.cells[..], valueIndex[..], i)
      ensures r.Ok? ==> Rank(old(valueIndex[..]), 10) < Rank(valueIndex[..], 10) ||
                        (old(valueIndex[..]) == valueIndex[..] && i == old(i) + 1)
      ensures i == old(i) + 1 ==>
        Skipped(old(sg.cells[..]), old(i), old(valueIndex[i]), valueIndex[old(i)]) &&
        Passes(sg.cells[..], old(i))
      ensures i <= old(i) ==> Skipped(old(sg.cells[..]), old(i), old(valueIndex[i]), 9)
    {
      ghost var c1, vi1 := sg.cells[..], valueIndex[..];
      ghost var i1 := i;
      var clash := TryPosition(sg);
      if clash {
        SkippedStep(c1, i1, vi1[i1], 8);
      }
      r, low2, reach2 := Decide(sg, c0, vi0, ready, low, reach, c1, vi1, clash);
    }

    /** The outer loop of `next_solution`, from a cursor below 9 with the bookkeeping of the
        running call in place: it ends with the cursor at 9 and the positions from `low2` on
        refilled, or with `NoSolution` and the cursors back at 0. */
    method Fill(sg: SudokuGrid, ghost c0: seq<Byte>, ghost vi0: seq<nat>, ghost ready: bool,
                ghost low: nat, ghost reach: nat)
      returns (r: Result<()>, ghost low2: nat, ghost reach2: nat)
      requires Valid(sg) && |random| >= 9 && |c0| == sg.cells.Length && |vi0| == 9
      requires SameOutside(c0, sg.cells[..])
      requires Progress(c0, vi0, sg.cells[..], valueIndex[..], i, low, reach)
      requires ready ==> Settled(sg.cells[..], valueIndex[..], i)
      modifies this, valueIndex, sg.cells
      ensures Cursors() && old(backtracks) <= backtracks
      ensures SameOutside(c0, sg.cells[..])
      ensures r.Ok? ==> i == 9 && low2 <= low && RefilledFrom(c0, vi0, sg.cells[..], valueIndex[..], low2)
      ensures r.Ok? && ready ==> Settled(sg.cells[..], valueIndex[..], 9)
      ensures r.NoSolution? ==> i == 0 && forall k :: 0 <= k < 9 ==> valueIndex[k] == 0
      ensures r.NoSolution? ==> EmptiedThrough(c0, sg.cells[..], reach2)
    {
      low2, reach2 := low, reach;
      while i < 9
        invariant Cursors() && old(backtracks) <= backtracks
        invariant SameOutside(c0, sg.cells[..])
        invariant low2 <= low
        invariant Progress(c0, vi0, sg.cells[..], valueIndex[..], i, low2, reach2)
        invariant ready ==> Settled(sg.cells[..], valueIndex[..], i)
        decreases Pow(10, 9) - Rank(valueIndex[..], 10), 9 - i
      {
        RankBound(valueIndex[..], 10);
        ghost var reach1 := reach2;
        r, low2, reach2 := Step(sg, c0, vi0, ready, low2, reach2);
        if r.NoSolution? {
          return r, low2, reach1;
        }
        RankBound(valueIndex[..], 10);
      }
      assert i == 9;
      ProgressDone(c0, vi0, sg.cells[..], valueIndex[..], low2, reach2);
      return Ok(()), low2, reach2;
    }

    /** `DfsBlock::next_solution`: fill the block position by position, each with the first
        candidate from its value cursor on that passes, backtracking when none does. A call
        after a complete fill (cursor at 9) resumes at the last position with its next
        candidate. Only the block's cells change. On success the positions the call revisited
        hold the candidates their cursors point at, the result is the backtrack count, and when
        the positions kept from before were settled every position is settled; on
        `NoSolution` the cursors are back at 0 and the cells the search passed are emptied. */
    method NextSolution(sg: SudokuGrid) returns (r: Result<nat>)
      requires Valid(sg) && |random| >= 9
      modifies this, valueIndex, sg.cells
      ensures Valid(sg) && old(backtracks) <= backtracks
      ensures SameOutside(old(sg.cells[..]), sg.cells[..])
      ensures r.Ok? ==> i == 9 && r.value == backtracks
      ensures r.Ok? ==> exists low: nat :: low <= Min(old(i), 8) &&
                          RefilledFrom(old(sg.cells[..]), old(valueIndex[..]), sg.cells[..], valueIndex[..], low)
      ensures r.Ok? && old(Settled(sg.cells[..], valueIndex[..], Min(i, 8))) ==> Settled(sg.cells[..], valueIndex[..], 9)
      ensures r.NoSolution? ==> i == 0 && forall k :: 0 <= k < 9 ==> valueIndex[k] == 0
      ensures r.NoSolution? ==> exists reach :: EmptiedThrough(old(sg.cells[..]), sg.cells[..], reach)
    {
      ghost var c0, vi0 := sg.cells[..], valueIndex[..];
      ghost var ready := Settled(c0, vi0, Min(i, 8));
      ghost var low: nat, reach: nat := Min(i, 8), Min(i, 8);
      if i >= 9 {
        var resumed;
        resumed, low := Resume(sg, ready);
        if resumed.NoSolution? {
          return NoSolution;
        }
      } else {
        ProgressStart(c0, vi0, i);
      }
      var filled;
      ghost var low2: nat, reach2: nat;
      filled, low2, reach2 := Fill(sg, c0, vi0, ready, low, reach);
      if filled.NoSolution? {
        return NoSolution;
      }
      return Ok(backtracks);
    }

    /** `DfsBlock::reset`: cursors and backtrack count back to 0 and the block's nine cells
        emptied; nothing else changes. */
    method Reset(sg: SudokuGrid)
      requires Wired(sg)
      modifies this, valueIndex, sg.cells
      ensures Valid(sg) && i == 0 && backtracks == 0 && forall k :: 0 <= k < 9 ==> valueIndex[k] == 0
      ensures forall j :: 0 <= j < sg.cells.Length ==>
        sg.cells[j] == (if indexes[0] <= j < indexes[0] + 9 then 0 else old(sg.cells[j]))
    {
      i := 0;
      backtracks := 0;
      forall k | 0 <= k < 9 {
        valueIndex[k] := 0;
      }
      for t := 0 to |indexes|
        modifies sg.cells
        invariant forall j :: 0 <= j < sg.cells.Length ==>
          sg.cells[j] == (if indexes[0] <= j < indexes[0] + t then 0 else old(sg.cells[j]))
      {
        sg.cells[indexes[t]] := 0;
      }
    }
  }
}
