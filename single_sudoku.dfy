/** A plain 9x9 puzzle stored as 81 cells in row-major order: the index formulas of its rows,
    columns and blocks, the region validators, the solved and problematic-cell checks, and the
    depth-first solver that fills the empty cells in place. */
module SingleSudoku {
  import opened Common

  /** Offsets of the nine cells of block 0; block i is this pattern shifted. */
  const BLOCK_PATTERN: seq<nat> := [0, 1, 2, 9, 10, 11, 18, 19, 20]

  /** Row `i`: the cells i*9 .. i*9+8. */
  function Row(i: nat): (r: seq<nat>)
    requires i < 9
    ensures |r| == 9 && forall k :: 0 <= k < 9 ==> r[k] < 81
  {
    seq(9, k requires 0 <= k < 9 => i * 9 + k)
  }

  /** Column `i`: every ninth cell starting at i. */
  function Column(i: nat): (r: seq<nat>)
    requires i < 9
    ensures |r| == 9 && forall k :: 0 <= k < 9 ==> r[k] < 81
  {
    seq(9, k requires 0 <= k < 9 => i + 9 * k)
  }

  /** Block `i`: the block-0 pattern shifted right by 3 per block and down by 18 per band. */
  function Block(i: nat): (r: seq<nat>)
    requires i < 9
    ensures |r| == 9 && forall k :: 0 <= k < 9 ==> r[k] < 81
  {
    seq(9, k requires 0 <= k < 9 => BLOCK_PATTERN[k] + i * 3 + i / 3 * 9 * 2)
  }

  /** The block that holds cell `c`, as the problematic-cell check computes it. */
  function BlockOf(c: nat): nat
  {
    (c % 9) / 3 + 3 * ((c / 9) / 3)
  }

  lemma RowMembers(i: nat, c: nat)
    requires i < 9 && c < 81
    ensures c in Row(i) <==> c / 9 == i
  {
    if c / 9 == i {
      assert Row(i)[c % 9] == c;
    }
  }

  lemma ColumnMembers(i: nat, c: nat)
    requires i < 9 && c < 81
    ensures c in Column(i) <==> c % 9 == i
  {
    if c % 9 == i {
      assert Column(i)[c / 9] == c;
    }
  }

  lemma DivMod9(c: int, q: int, r: int)
    requires c == 9 * q + r && 0 <= r < 9
    ensures c / 9 == q && c % 9 == r
  {
  }

  lemma DivMod3(c: int, q: int, r: int)
    requires c == 3 * q + r && 0 <= r < 3
    ensures c / 3 == q && c % 3 == r
  {
  }

  lemma PatternShape(k: nat)
    requires k < 9
    ensures BLOCK_PATTERN[k] == 9 * (k / 3) + k % 3
  {
  }

  /** Block i starts at row 3*(i/3), column 3*(i%3). */
  lemma BlockShape(i: nat, k: nat)
    requires i < 9 && k < 9
    ensures Block(i)[k] == 9 * (3 * (i / 3) + k / 3) + (3 * (i % 3) + k % 3)
  {
    PatternShape(k);
    assert i == 3 * (i / 3) + i % 3;
  }

  lemma BlockMembers(i: nat, c: nat)
    requires i < 9 && c < 81
    ensures c in Block(i) <==> BlockOf(c) == i
  {
    if c in Block(i) {
      var k :| 0 <= k < 9 && Block(i)[k] == c;
      InBlockAt(i, k);
    }
    if BlockOf(c) == i {
      BlockHolds(c);
    }
  }

  lemma InBlockAt(i: nat, k: nat)
    requires i < 9 && k < 9
    ensures BlockOf(Block(i)[k]) == i
  {
    var c := Block(i)[k];
    BlockShape(i, k);
    DivMod9(c, 3 * (i / 3) + k / 3, 3 * (i % 3) + k % 3);
    DivMod3(c / 9, i / 3, k / 3);
    DivMod3(c % 9, i % 3, k % 3);
  }

  lemma BlockHolds(c: nat)
    requires c < 81
    ensures BlockOf(c) < 9 && c in Block(BlockOf(c))
  {
    var q, r := c / 9, c % 9;
    var a, b, d, e := q / 3, q % 3, r / 3, r % 3;
    DivMod3(c, 9 * a + 3 * b + d, e);
    var i, k := d + 3 * a, 3 * b + e;
    DivMod3(k, b, e);
    DivMod3(i, a, d);
    BlockShape(i, k);
    assert Block(i)[k] == c;
  }

  /** The nine values of a region pass full validation (`Region::validate`). */
  predicate RegionValid(c: seq<Byte>, region: seq<nat>)
    requires |c| == 81 && forall k :: 0 <= k < |region| ==> region[k] < 81
  {
    ValidValues(Values(c, region), false)
  }

  /** The nine values of a region pass partial validation (`Region::partial_validate`). */
  predicate RegionPartialValid(c: seq<Byte>, region: seq<nat>)
    requires |c| == 81 && forall k :: 0 <= k < |region| ==> region[k] < 81
  {
    ValidValues(Values(c, region), true)
  }

  /** Every row, column and block holds the digits 1..9 exactly once. */
  predicate IsSolved(c: seq<Byte>)
    requires |c| == 81
  {
    (forall i :: 0 <= i < 9 ==> RegionValid(c, Row(i))) &&
    (forall i :: 0 <= i < 9 ==> RegionValid(c, Column(i))) &&
    (forall i :: 0 <= i < 9 ==> RegionValid(c, Block(i)))
  }

  /** Cell `i` is problematic when its row, column or block fails partial validation. */
  predicate CellIsProblematic(c: seq<Byte>, i: nat)
    requires |c| == 81 && i < 81
  {
    !RegionPartialValid(c, Row(i / 9)) ||
    !RegionPartialValid(c, Column(i % 9)) ||
    !RegionPartialValid(c, Block(BlockOf(i)))
  }

  /** Value w passes the problematic-cell check of cell i once written into `c`. */
  predicate ValueFits(c: seq<Byte>, i: nat, w: Byte)
    requires |c| == 81 && i < 81
  {
    !CellIsProblematic(c[i := w], i)
  }

  lemma TriedStep(c: seq<Byte>, i: nat, v: Byte)
    requires |c| == 81 && i < 81 && v < 255
    requires forall w: Byte :: c[i] < w < v ==> !ValueFits(c, i, w)
    requires !ValueFits(c, i, v)
    ensures forall w: Byte :: c[i] < w < v + 1 ==> !ValueFits(c, i, w)
  {
  }

  /** The three regions the problematic-cell check inspects are the ones that hold the cell. */
  lemma ProblemRegionsHoldCell(i: nat)
    requires i < 81
    ensures i in Row(i / 9) && i in Column(i % 9) && BlockOf(i) < 9 && i in Block(BlockOf(i))
  {
    RowMembers(i / 9, i);
    ColumnMembers(i % 9, i);
    BlockMembers(BlockOf(i), i);
  }

  /** A complete, valid region is in particular partially valid. */
  lemma ValidIsPartialValid(c: seq<Byte>, region: seq<nat>)
    requires |c| == 81 && forall k :: 0 <= k < |region| ==> region[k] < 81
    requires RegionValid(c, region)
    ensures RegionPartialValid(c, region)
  {
  }

  /** A cell of a solved puzzle is filled and unproblematic. */
  lemma SolvedCell(c: seq<Byte>, k: nat)
    requires |c| == 81 && k < 81 && IsSolved(c)
    ensures c[k] != 0 && !CellIsProblematic(c, k)
  {
    ProblemRegionsHoldCell(k);
    assert Row(k / 9)[k % 9] == k;
    assert Values(c, Row(k / 9))[k % 9] == c[k];
    ValidIsPartialValid(c, Row(k / 9));
    ValidIsPartialValid(c, Column(k % 9));
    ValidIsPartialValid(c, Block(BlockOf(k)));
  }

  /** A region that one unproblematic cell checks, and that has no gaps, is valid. */
  lemma CompleteRegion(c: seq<Byte>, region: seq<nat>, anchor: nat)
    requires |c| == 81 && anchor < 81 && |region| == 9
    requires forall k :: 0 <= k < 9 ==> region[k] < 81
    requires forall k :: 0 <= k < 81 ==> c[k] != 0
    requires region == Row(anchor / 9) || region == Column(anchor % 9) || region == Block(BlockOf(anchor))
    requires !CellIsProblematic(c, anchor)
    ensures RegionValid(c, region)
  {
  }

  /** With no gaps and no problematic cell, the three regions numbered `i` are valid: each is
      checked by one of its own cells. */
  lemma RegionsOfIndexValid(c: seq<Byte>, i: nat)
    requires |c| == 81 && i < 9
    requires forall k :: 0 <= k < 81 ==> c[k] != 0 && !CellIsProblematic(c, k)
    ensures RegionValid(c, Row(i)) && RegionValid(c, Column(i)) && RegionValid(c, Block(i))
  {
    DivMod9(9 * i, i, 0);
    CompleteRegion(c, Row(i), 9 * i);
    DivMod9(i, 0, i);
    CompleteRegion(c, Column(i), i);
    var corner := 27 * (i / 3) + 3 * (i % 3);
    DivMod9(corner, 3 * (i / 3), 3 * (i % 3));
    DivMod3(3 * (i / 3), i / 3, 0);
    DivMod3(3 * (i % 3), i % 3, 0);
    assert BlockOf(corner) == i;
    CompleteRegion(c, Block(i), corner);
  }

  /** A puzzle is solved exactly when no cell is empty and no cell is problematic. */
  lemma SolvedIffNoProblems(c: seq<Byte>)
    requires |c| == 81
    ensures IsSolved(c) <==> forall k :: 0 <= k < 81 ==> c[k] != 0 && !CellIsProblematic(c, k)
  {
    if IsSolved(c) {
      forall k | 0 <= k < 81 ensures c[k] != 0 && !CellIsProblematic(c, k) {
        SolvedCell(c, k);
      }
    }
    if forall k :: 0 <= k < 81 ==> c[k] != 0 && !CellIsProblematic(c, k) {
      forall i | 0 <= i < 9
        ensures RegionValid(c, Row(i)) && RegionValid(c, Column(i)) && RegionValid(c, Block(i))
      {
        RegionsOfIndexValid(c, i);
      }
    }
  }

  /** Writing cell `i` keeps an unproblematic cell `k` unproblematic, provided `i` itself is
      unproblematic after the write: any region of `k` that the write touches is one of `i`'s. */
  lemma WriteKeepsUnproblematic(c: seq<Byte>, k: nat, i: nat, v: Byte)
    requires |c| == 81 && k < 81 && i < 81
    requires !CellIsProblematic(c, k) && !CellIsProblematic(c[i := v], i)
    ensures !CellIsProblematic(c[i := v], k)
  {
    RowMembers(k / 9, i);
    if i / 9 != k / 9 { ValuesFrame(c, Row(k / 9), i, v); }
    ColumnMembers(k % 9, i);
    if i % 9 != k % 9 { ValuesFrame(c, Column(k % 9), i, v); }
    BlockMembers(BlockOf(k), i);
    if BlockOf(i) != BlockOf(k) { ValuesFrame(c, Block(BlockOf(k)), i, v); }
  }

  /** Emptying a cell keeps every unproblematic cell unproblematic. */
  lemma ClearKeepsUnproblematic(c: seq<Byte>, k: nat, i: nat)
    requires |c| == 81 && k < 81 && i < 81
    requires !CellIsProblematic(c, k)
    ensures !CellIsProblematic(c[i := 0], k)
  {
    ClearKeepsPartialValid(c, Row(k / 9), i);
    ClearKeepsPartialValid(c, Column(k % 9), i);
    ClearKeepsPartialValid(c, Block(BlockOf(k)), i);
  }

  /** The bit `Region::validate` sets for value v in its 16-bit seen map. */
  function SeenBit(v: nat): bv16
    requires v <= 9
  {
    (2 as bv16) << v
  }

  /** `seen` has the bit of exactly the digits that occur in `vs`. */
  predicate SeenExactly(seen: bv16, vs: seq<int>)
  {
    forall w :: 1 <= w <= 9 ==> (seen & SeenBit(w) != 0 <==> w in vs)
  }

  lemma SeenBitAdd(seen: bv16, v: nat, w: nat)
    requires v <= 9 && w <= 9
    ensures (seen | SeenBit(v)) & SeenBit(w) != 0 <==> seen & SeenBit(w) != 0 || w == v
  {
  }

  lemma SeenAppend(seen: bv16, vs: seq<int>, v: nat)
    requires SeenExactly(seen, vs) && 1 <= v <= 9
    ensures SeenExactly(seen | SeenBit(v), vs + [v])
  {
    forall w | 1 <= w <= 9 ensures (seen | SeenBit(v)) & SeenBit(w) != 0 <==> w in vs + [v] {
      SeenBitAdd(seen, v, w);
    }
  }

  lemma SeenEmpty()
    ensures SeenExactly(0, [])
  {
    forall w | 1 <= w <= 9 ensures (0 as bv16) & SeenBit(w) == 0 {
    }
  }

  /** `Region::validate` (partial = false) and `Region::partial_validate` (partial = true):
      one scan with a seen bitmap, stopping at the first empty (unless partial), out-of-range
      or repeated value. */
  method Validate(cells: array<Byte>, region: seq<nat>, partial: bool) returns (ok: bool)
    requires forall k :: 0 <= k < |region| ==> region[k] < cells.Length
    ensures ok == ValidValues(Values(cells[..], region), partial)
  {
    var seen: bv16 := 0;
    ghost var vs := Values(cells[..], region);
    SeenEmpty();
    for t := 0 to |region|
      invariant ValidValues(vs[..t], partial)
      invariant SeenExactly(seen, vs[..t])
    {
      var v := cells[region[t]];
      assert vs[..t + 1] == vs[..t] + [v];
      ValidAppend(vs[..t], v, partial);
      if v == 0 && partial {
        continue;
      }
      if v == 0 || v > 9 || seen & SeenBit(v) != 0 {
        InvalidPrefix(vs, t + 1, partial);
        return false;
      }
      SeenAppend(seen, vs[..t], v);
      seen := seen | SeenBit(v);
    }
    assert vs[..|region|] == vs;
    return true;
  }

  /** The solver's progress measure: the guessed cells read as digits, where the cell the search
      has just backed up to counts one higher (its next value is pending). Pre-filled cells
      count as 0. */
  ghost function Progress(c: seq<Byte>, init: seq<Byte>, i: nat, ignoreNonZero: bool): seq<int>
    requires |c| == 81 && |init| == 81
  {
    seq(81, k requires 0 <= k < 81 =>
      if init[k] != 0 then 0 else c[k] as int + (if k == i && !ignoreNonZero then 1 else 0))
  }

  /** The state between two rounds of `Sudoku::solve`, started from `init`: the guess stack holds,
      in increasing order, exactly the initially empty cells before the cursor `i`; those hold a
      digit that is not problematic; pre-filled cells are untouched; the empty cells from the
      cursor on are still empty, except the cursor's own cell when the search has just backed up
      to it (`ignoreNonZero` false), which holds the digit to be raised. */
  ghost predicate SolveInv(c: seq<Byte>, init: seq<Byte>, guesses: seq<nat>, i: nat, ignoreNonZero: bool)
    requires |c| == 81 && |init| == 81
  {
    i <= 81 &&
    (forall t :: 0 <= t < |guesses| ==> guesses[t] < i && init[guesses[t]] == 0) &&
    (forall t, u :: 0 <= t < u < |guesses| ==> guesses[t] < guesses[u]) &&
    (forall k :: 0 <= k < i && init[k] == 0 ==> k in guesses) &&
    (forall k :: 0 <= k < 81 && init[k] != 0 ==> c[k] == init[k]) &&
    (forall k :: 0 <= k < i && init[k] == 0 ==> 1 <= c[k] <= 9 && !CellIsProblematic(c, k)) &&
    (forall k :: i <= k < 81 && init[k] == 0 && (k != i || ignoreNonZero) ==> c[k] == 0) &&
    (!ignoreNonZero ==> i < 81 && init[i] == 0 && 1 <= c[i] <= 9)
  }

  lemma InvDigits(c: seq<Byte>, init: seq<Byte>, guesses: seq<nat>, i: nat, ignoreNonZero: bool)
    requires |c| == 81 && |init| == 81 && SolveInv(c, init, guesses, i, ignoreNonZero)
    ensures Digits(Progress(c, init, i, ignoreNonZero), 11)
  {
  }

  /** A cell holding more than 9 is always problematic: its row rejects the value. */
  lemma OverNineProblematic(c: seq<Byte>, i: nat)
    requires |c| == 81 && i < 81 && c[i] > 9
    ensures CellIsProblematic(c, i)
  {
    ProblemRegionsHoldCell(i);
    assert Row(i / 9)[i % 9] == i;
    assert Values(c, Row(i / 9))[i % 9] == c[i];
  }

  /** Skipping a filled cell keeps the invariant and the measure. */
  lemma SkipStep(c: seq<Byte>, init: seq<Byte>, guesses: seq<nat>, i: nat)
    requires |c| == 81 && |init| == 81 && SolveInv(c, init, guesses, i, true)
    requires i < 81 && c[i] > 0
    ensures SolveInv(c, init, guesses, i + 1, true)
    ensures Progress(c, init, i + 1, true) == Progress(c, init, i, true)
  {
  }

  /** Keeping an unproblematic guess v for the cursor's cell pushes it and moves on; the measure
      grows, or stays put while the cursor advances. */
  lemma AcceptStep(c: seq<Byte>, init: seq<Byte>, guesses: seq<nat>, i: nat, ignoreNonZero: bool, v: Byte)
    requires |c| == 81 && |init| == 81 && SolveInv(c, init, guesses, i, ignoreNonZero)
    requires i < 81 && (ignoreNonZero ==> c[i] == 0) && c[i] < v <= 9
    requires !CellIsProblematic(c[i := v], i)
    ensures SolveInv(c[i := v], init, guesses + [i], i + 1, true)
    ensures Rank(Progress(c, init, i, ignoreNonZero), 11) < Rank(Progress(c[i := v], init, i + 1, true), 11)
         || Progress(c[i := v], init, i + 1, true) == Progress(c, init, i, ignoreNonZero)
    ensures Rank(Progress(c[i := v], init, i + 1, true), 11) < Pow(11, 81)
  {
    AcceptKeepsInv(c, init, guesses, i, ignoreNonZero, v);
    AcceptMeasure(c, init, guesses, i, ignoreNonZero, v);
  }

  lemma AcceptKeepsInv(c: seq<Byte>, init: seq<Byte>, guesses: seq<nat>, i: nat, ignoreNonZero: bool, v: Byte)
    requires |c| == 81 && |init| == 81 && SolveInv(c, init, guesses, i, ignoreNonZero)
    requires i < 81 && (ignoreNonZero ==> c[i] == 0) && c[i] < v <= 9
    requires !CellIsProblematic(c[i := v], i)
    ensures SolveInv(c[i := v], init, guesses + [i], i + 1, true)
  {
    var c' := c[i := v];
    forall k | 0 <= k < i && init[k] == 0 ensures !CellIsProblematic(c', k) {
      WriteKeepsUnproblematic(c, k, i, v);
    }
  }

  lemma AcceptMeasure(c: seq<Byte>, init: seq<Byte>, guesses: seq<nat>, i: nat, ignoreNonZero: bool, v: Byte)
    requires |c| == 81 && |init| == 81 && SolveInv(c, init, guesses, i, ignoreNonZero)
    requires i < 81 && (ignoreNonZero ==> c[i] == 0) && c[i] < v <= 9
    ensures Rank(Progress(c, init, i, ignoreNonZero), 11) < Rank(Progress(c[i := v], init, i + 1, true), 11)
         || Progress(c[i := v], init, i + 1, true) == Progress(c, init, i, ignoreNonZero)
    ensures Rank(Progress(c[i := v], init, i + 1, true), 11) < Pow(11, 81)
  {
    var c' := c[i := v];
    var before := Progress(c, init, i, ignoreNonZero);
    var after := Progress(c', init, i + 1, true);
    InvDigits(c, init, guesses, i, ignoreNonZero);
    assert Digits(after, 11);
    if after != before {
      assert after[..i] == before[..i];
      assert after[i + 1..] == before[i + 1..];
      RankLexLess(before, after, i, 11);
    }
    RankBound(after, 11);
  }

  /** When no digit fits the cursor's cell, clearing it and resuming the latest guess keeps the
      invariant, and the measure grows: that guess's pending value counts one higher. */
  lemma BacktrackStep(c: seq<Byte>, init: seq<Byte>, guesses: seq<nat>, i: nat, ignoreNonZero: bool)
    requires |c| == 81 && |init| == 81 && SolveInv(c, init, guesses, i, ignoreNonZero)
    requires i < 81 && (ignoreNonZero ==> c[i] == 0) && |guesses| > 0
    ensures SolveInv(c[i := 0], init, guesses[..|guesses| - 1], guesses[|guesses| - 1], false)
    ensures Rank(Progress(c, init, i, ignoreNonZero), 11)
          < Rank(Progress(c[i := 0], init, guesses[|guesses| - 1], false), 11) < Pow(11, 81)
  {
    BacktrackKeepsInv(c, init, guesses, i, ignoreNonZero);
    var g := guesses[|guesses| - 1];
    var before := Progress(c, init, i, ignoreNonZero);
    var after := Progress(c[i := 0], init, g, false);
    InvDigits(c, init, guesses, i, ignoreNonZero);
    InvDigits(c[i := 0], init, guesses[..|guesses| - 1], g, false);
    assert after[..g] == before[..g];
    RankLexLess(before, after, g, 11);
    RankBound(after, 11);
  }

  lemma BacktrackKeepsInv(c: seq<Byte>, init: seq<Byte>, guesses: seq<nat>, i: nat, ignoreNonZero: bool)
    requires |c| == 81 && |init| == 81 && SolveInv(c, init, guesses, i, ignoreNonZero)
    requires i < 81 && (ignoreNonZero ==> c[i] == 0) && |guesses| > 0
    ensures SolveInv(c[i := 0], init, guesses[..|guesses| - 1], guesses[|guesses| - 1], false)
  {
    PopGuess(init, guesses, i);
    ClearCells(c, init, i, guesses[|guesses| - 1], ignoreNonZero);
  }

  /** Dropping the latest guess g leaves the earlier guesses, which cover every blank before g. */
  lemma PopGuess(init: seq<Byte>, guesses: seq<nat>, i: nat)
    requires |init| == 81 && i <= 81 && |guesses| > 0
    requires forall t :: 0 <= t < |guesses| ==> guesses[t] < i && init[guesses[t]] == 0
    requires forall t, u :: 0 <= t < u < |guesses| ==> guesses[t] < guesses[u]
    requires forall k :: 0 <= k < i && init[k] == 0 ==> k in guesses
    ensures var g, rest := guesses[|guesses| - 1], guesses[..|guesses| - 1];
      g < i && init[g] == 0 &&
      (forall t :: 0 <= t < |rest| ==> rest[t] < g && init[rest[t]] == 0) &&
      (forall t, u :: 0 <= t < u < |rest| ==> rest[t] < rest[u]) &&
      (forall k :: 0 <= k < g && init[k] == 0 ==> k in rest) &&
      (forall k :: g < k < i ==> init[k] != 0)
  {
    var g, rest := guesses[|guesses| - 1], guesses[..|guesses| - 1];
    forall k | 0 <= k < g && init[k] == 0 ensures k in rest {
      var t :| 0 <= t < |guesses| && guesses[t] == k;
      assert t != |guesses| - 1;
      assert rest[t] == k;
    }
    assert forall t :: 0 <= t < |guesses| ==> guesses[t] <= g;
  }

  /** Clearing the cursor's cell keeps the cells before it settled and leaves every blank from
      the resumed guess g on empty, except g itself, which keeps its digit (no blank lies
      between g and the cursor). */
  lemma ClearCells(c: seq<Byte>, init: seq<Byte>, i: nat, g: nat, ignoreNonZero: bool)
    requires |c| == 81 && |init| == 81 && i < 81 && g < i && init[g] == 0
    requires forall k :: g < k < i ==> init[k] != 0
    requires forall k :: 0 <= k < 81 && init[k] != 0 ==> c[k] == init[k]
    requires forall k :: 0 <= k < i && init[k] == 0 ==> 1 <= c[k] <= 9 && !CellIsProblematic(c, k)
    requires forall k :: i <= k < 81 && init[k] == 0 && (k != i || ignoreNonZero) ==> c[k] == 0
    requires (ignoreNonZero ==> c[i] == 0) && (!ignoreNonZero ==> init[i] == 0)
    ensures var c' := c[i := 0];
      (forall k :: 0 <= k < 81 && init[k] != 0 ==> c'[k] == init[k]) &&
      (forall k :: 0 <= k < g && init[k] == 0 ==> 1 <= c'[k] <= 9 && !CellIsProblematic(c', k)) &&
      (forall k :: g <= k < 81 && init[k] == 0 && k != g ==> c'[k] == 0) &&
      1 <= c'[g] <= 9
  {
    var c' := c[i := 0];
    forall k | 0 <= k < g && init[k] == 0 ensures !CellIsProblematic(c', k) {
      ClearKeepsUnproblematic(c, k, i);
    }
  }

  /** When no digit fits and nothing was guessed, clearing the cell restores the initial puzzle. */
  lemma ExhaustedStep(c: seq<Byte>, init: seq<Byte>, i: nat, ignoreNonZero: bool)
    requires |c| == 81 && |init| == 81 && SolveInv(c, init, [], i, ignoreNonZero)
    requires i < 81 && (ignoreNonZero ==> c[i] == 0)
    ensures c[i := 0] == init
  {
  }

  /** What a search that reached the end leaves behind. */
  lemma FinishStep(c: seq<Byte>, init: seq<Byte>, guesses: seq<nat>, ignoreNonZero: bool)
    requires |c| == 81 && |init| == 81 && SolveInv(c, init, guesses, 81, ignoreNonZero)
    ensures forall k :: 0 <= k < 81 ==> c[k] != 0
    ensures forall k :: 0 <= k < 81 && init[k] == 0 ==> c[k] <= 9 && !CellIsProblematic(c, k)
    ensures (forall k :: 0 <= k < 81 ==> !CellIsProblematic(init, k)) ==> IsSolved(c)
  {
    if forall k :: 0 <= k < 81 ==> !CellIsProblematic(init, k) {
      CompletedIsSolved(c, init);
    }
  }

  /** If the puzzle started without problematic cells, a completed search leaves it solved:
      each region holds a guessed cell, whose check covers it, or is untouched. */
  lemma CompletedIsSolved(c: seq<Byte>, init: seq<Byte>)
    requires |c| == 81 && |init| == 81
    requires forall k :: 0 <= k < 81 ==> !CellIsProblematic(init, k)
    requires forall k :: 0 <= k < 81 ==> c[k] != 0
    requires forall k :: 0 <= k < 81 && init[k] != 0 ==> c[k] == init[k]
    requires forall k :: 0 <= k < 81 && init[k] == 0 ==> !CellIsProblematic(c, k)
    ensures IsSolved(c)
  {
    forall k | 0 <= k < 81 ensures !CellIsProblematic(c, k) {
      if init[k] != 0 {
        assert !CellIsProblematic(init, k);
        ProblemRegionsHoldCell(k);
        RegionKept(c, init, Row(k / 9));
        RegionKept(c, init, Column(k % 9));
        RegionKept(c, init, Block(BlockOf(k)));
      }
    }
    SolvedIffNoProblems(c);
  }

  /** A region of an untouched pre-filled cell stays partially valid, or else some initially
      empty cell of it vouches for it. */
  lemma RegionKept(c: seq<Byte>, init: seq<Byte>, region: seq<nat>)
    requires |c| == 81 && |init| == 81 && |region| == 9
    requires exists r :: 0 <= r < 9 && (region == Row(r) || region == Column(r) || region == Block(r))
    requires RegionPartialValid(init, region)
    requires forall k :: 0 <= k < 81 && init[k] != 0 ==> c[k] == init[k]
    requires forall k :: 0 <= k < 81 && init[k] == 0 ==> !CellIsProblematic(c, k)
    ensures RegionPartialValid(c, region)
  {
    var r :| 0 <= r < 9 && (region == Row(r) || region == Column(r) || region == Block(r));
    if p :| 0 <= p < 9 && init[region[p]] == 0 {
      var j := region[p];
      if region == Row(r) {
        RowMembers(r, j);
      } else if region == Column(r) {
        ColumnMembers(r, j);
      } else {
        BlockMembers(r, j);
      }
    } else {
      assert Values(c, region) == Values(init, region);
    }
  }

  // ---- The concrete cases the source's tests pin down ----

  /** A puzzle written down row by row. */
  function FromRows(rows: seq<seq<Byte>>): (c: seq<Byte>)
    requires |rows| == 9 && forall r :: 0 <= r < 9 ==> |rows[r]| == 9
    ensures |c| == 81 && forall k :: 0 <= k < 81 ==> c[k] == rows[k / 9][k % 9]
  {
    seq(81, k requires 0 <= k < 81 => rows[k / 9][k % 9])
  }

  /** The solved sample grid of the tests. */
  const SAMPLE: seq<Byte> := FromRows([
    [1, 2, 3, 4, 5, 6, 7, 8, 9],
    [4, 5, 6, 7, 8, 9, 1, 2, 3],
    [7, 8, 9, 1, 2, 3, 4, 5, 6],
    [2, 3, 1, 5, 6, 4, 8, 9, 7],
    [5, 6, 4, 8, 9, 7, 2, 3, 1],
    [8, 9, 7, 2, 3, 1, 5, 6, 4],
    [3, 1, 2, 6, 4, 5, 9, 7, 8],
    [6, 4, 5, 9, 7, 8, 3, 1, 2],
    [9, 7, 8, 3, 1, 2, 6, 4, 5]])

  /** Rows and columns are Latin, but the blocks repeat digits. */
  const SWAPPED_BLOCKS: seq<Byte> := FromRows([
    [1, 2, 3, 4, 5, 6, 7, 8, 9],
    [2, 3, 1, 5, 6, 4, 8, 9, 7],
    [3, 1, 2, 6, 4, 5, 9, 7, 8],
    [4, 5, 6, 7, 8, 9, 1, 2, 3],
    [5, 6, 4, 8, 9, 7, 2, 3, 1],
    [6, 4, 5, 9, 7, 8, 3, 1, 2],
    [7, 8, 9, 1, 2, 3, 4, 5, 6],
    [8, 9, 7, 2, 3, 1, 5, 6, 4],
    [9, 7, 8, 3, 1, 2, 6, 4, 5]])

  lemma RegionIndexExamples()
    ensures Row(0) == [0, 1, 2, 3, 4, 5, 6, 7, 8]
    ensures Column(0) == [0, 9, 18, 27, 36, 45, 54, 63, 72]
    ensures Block(0) == [0, 1, 2, 9, 10, 11, 18, 19, 20]
    ensures Block(4) == [30, 31, 32, 39, 40, 41, 48, 49, 50]
  {
  }

  /** A value that is neither a digit nor an allowed gap fails validation. */
  lemma BadValueInvalid(vs: seq<int>, k: nat, partial: bool)
    requires k < |vs| && !(1 <= vs[k] <= 9) && (partial ==> vs[k] != 0)
    ensures !ValidValues(vs, partial)
  {
  }

  /** A repeated digit fails validation. */
  lemma RepeatInvalid(vs: seq<int>, k: nat, l: nat, partial: bool)
    requires k < l < |vs| && vs[k] != 0 && vs[k] == vs[l]
    ensures !ValidValues(vs, partial)
  {
  }

  /** The regions the tests expect `Region::validate` to accept. */
  lemma ValidateAccepts()
    ensures ValidValues([1, 2, 3, 4, 5, 6, 7, 8, 9], false)
    ensures ValidValues([9, 6, 3, 8, 5, 2, 7, 4, 1], false)
  {
  }

  /** The regions the tests expect `Region::validate` to reject: a gap, an out-of-range value
      and three repeats. */
  lemma ValidateRejects()
    ensures !ValidValues([1, 2, 3, 4, 5, 6, 7, 0, 9], false) && !ValidValues([1, 2, 3, 4, 5, 6, 7, 10, 9], false)
    ensures !ValidValues([1, 2, 2, 4, 5, 6, 7, 8, 9], false) && !ValidValues([1, 2, 3, 4, 5, 6, 7, 8, 1], false)
    ensures !ValidValues([1, 2, 3, 4, 5, 6, 7, 9, 9], false)
  {
    BadValueInvalid([1, 2, 3, 4, 5, 6, 7, 0, 9], 7, false);
    BadValueInvalid([1, 2, 3, 4, 5, 6, 7, 10, 9], 7, false);
    RepeatInvalid([1, 2, 2, 4, 5, 6, 7, 8, 9], 1, 2, false);
    RepeatInvalid([1, 2, 3, 4, 5, 6, 7, 9, 9], 7, 8, false);
    RepeatInvalid([1, 2, 3, 4, 5, 6, 7, 8, 1], 0, 8, false);
  }

  /** The regions the tests expect `Region::partial_validate` to accept, gaps included. */
  lemma PartialValidateAccepts()
    ensures ValidValues([0, 0, 0, 0, 0, 0, 0, 0, 0], true)
    ensures ValidValues([0, 1, 0, 0, 0, 0, 6, 0, 0], true)
    ensures ValidValues([1, 2, 3, 4, 5, 6, 7, 0, 9], true)
  {
  }

  /** The regions the tests expect `Region::partial_validate` to reject: an out-of-range value
      and three repeats. */
  lemma PartialValidateRejects()
    ensures !ValidValues([1, 2, 3, 4, 5, 6, 7, 10, 9], true)
    ensures !ValidValues([1, 2, 3, 4, 5, 6, 7, 9, 9], true) && !ValidValues([1, 2, 3, 4, 5, 6, 7, 8, 1], true)
    ensures !ValidValues([1, 2, 2, 4, 5, 6, 7, 8, 9], true)
  {
    BadValueInvalid([1, 2, 3, 4, 5, 6, 7, 10, 9], 7, true);
    RepeatInvalid([1, 2, 2, 4, 5, 6, 7, 8, 9], 1, 2, true);
    RepeatInvalid([1, 2, 3, 4, 5, 6, 7, 9, 9], 7, 8, true);
    RepeatInvalid([1, 2, 3, 4, 5, 6, 7, 8, 1], 0, 8, true);
  }

  /** The tests' verdicts on two corruptions of the sample grid, a grid whose blocks repeat
      digits, and the empty grid. */
  lemma UnsolvedExamples()
    ensures !IsSolved(SAMPLE[0 := 2][1 := 1]) && !IsSolved(SAMPLE[0 := 4][9 := 1])
    ensures !IsSolved(SAMPLE[37 := 0]) && !IsSolved(SWAPPED_BLOCKS)
    ensures !IsSolved(seq(81, _ => 0))
  {
    assert Values(SAMPLE[0 := 2][1 := 1], Column(0))[0] == Values(SAMPLE[0 := 2][1 := 1], Column(0))[3];
    assert Values(SAMPLE[0 := 4][9 := 1], Row(0))[0] == Values(SAMPLE[0 := 4][9 := 1], Row(0))[3];
    assert Values(SAMPLE[37 := 0], Row(4))[1] == 0;
    assert Values(SWAPPED_BLOCKS, Block(0))[1] == Values(SWAPPED_BLOCKS, Block(0))[3];
    assert Values(seq(81, _ => 0), Row(0))[0] == 0;
  }

  /** A 9x9 puzzle whose 81 cells are updated in place by the solver. */
  class Sudoku {
    const cells: array<Byte>

    predicate Valid()
    {
      cells.Length == 81
    }

    /** `Sudoku::new_empty`: all 81 cells empty. */
    constructor NewEmpty()
      ensures Valid() && fresh(cells)
      ensures forall k :: 0 <= k < 81 ==> cells[k] == 0
    {
      cells := new Byte[81](_ => 0);
    }

    /** The guessing step of `Sudoku::solve`: raise cell `i` by one, then keep raising it while
        it is problematic and below 9. It stops at the smallest larger value that fits, or at a
        value (9 or 10) that may still be problematic. */
    method NextFittingValue(i: nat)
      requires Valid() && i < 81 && cells[i] <= 9
      modifies cells
      ensures cells[..] == old(cells[..])[i := cells[i]]
      ensures old(cells[i]) < cells[i] <= 10
      ensures !CellIsProblematic(cells[..], i) || cells[i] >= 9
      ensures forall w: Byte :: old(cells[i]) < w < cells[i] ==> !ValueFits(old(cells[..]), i, w)
    {
      ghost var c0 := cells[..];
      cells[i] := cells[i] + 1;
      while CellIsProblematic(cells[..], i) && cells[i] < 9
        invariant c0[i] < cells[i] <= 10
        invariant cells[..] == c0[i := cells[i]]
        invariant forall w: Byte :: c0[i] < w < cells[i] ==> !ValueFits(c0, i, w)
        decreases 9 - cells[i] as int
      {
        assert !ValueFits(c0, i, cells[i]);
        TriedStep(c0, i, cells[i]);
        cells[i] := cells[i] + 1;
      }
    }

    /** One round of the loop of `Sudoku::solve` at cell i: skip a pre-filled cell, keep the
        next value that passes, or, when none does, clear the cell and resume the latest guess;
        `exhausted` when there is none, the grid then being back where the search started.
        Otherwise the invariant holds at the new cursor and the measure has grown, or stayed put
        while the cursor advanced. */
    method SolveRound(ghost init: seq<Byte>, guesses: seq<nat>, i: nat, ignoreNonZero: bool)
      returns (exhausted: bool, guesses': seq<nat>, i': nat, ignoreNonZero': bool)
      requires Valid() && |init| == 81 && SolveInv(cells[..], init, guesses, i, ignoreNonZero) && i < 81
      requires Rank(Progress(cells[..], init, i, ignoreNonZero), 11) < Pow(11, 81)
      modifies cells
      ensures exhausted ==> cells[..] == init
      ensures !exhausted ==>
        SolveInv(cells[..], init, guesses', i', ignoreNonZero') &&
        Rank(Progress(cells[..], init, i', ignoreNonZero'), 11) < Pow(11, 81) &&
        (Rank(Progress(old(cells[..]), init, i, ignoreNonZero), 11) <
           Rank(Progress(cells[..], init, i', ignoreNonZero'), 11) ||
         (Rank(Progress(old(cells[..]), init, i, ignoreNonZero), 11) ==
            Rank(Progress(cells[..], init, i', ignoreNonZero'), 11) && i' > i))
    {
      ghost var head := cells[..];
      if ignoreNonZero && cells[i] > 0 {
        // already filled
        SkipStep(head, init, guesses, i);
        return false, guesses, i + 1, true;
      }
      NextFittingValue(i);
      if CellIsProblematic(cells[..], i) {
        // no value fits: clear the cell and resume the latest guess
        cells[i] := 0;
        assert cells[..] == head[i := 0];
        if |guesses| == 0 {
          ExhaustedStep(head, init, i, ignoreNonZero);
          return true, guesses, i, ignoreNonZero;
        }
        BacktrackStep(head, init, guesses, i, ignoreNonZero);
        return false, guesses[..|guesses| - 1], guesses[|guesses| - 1], false;
      }
      if cells[i] > 9 {
        OverNineProblematic(cells[..], i);
      }
      AcceptStep(head, init, guesses, i, ignoreNonZero, cells[i]);
      return false, guesses + [i], i + 1, true;
    }

    /** `Sudoku::solve`: depth-first search over the cells in index order. A pre-filled cell is
        skipped; an empty one is raised through 1..9 until it is not problematic, and when no
        value fits the search clears it and resumes the most recent guess at its next value. */
    method Solve() returns (r: Result<()>)
      requires Valid()
      modifies cells
      ensures forall k :: 0 <= k < 81 && old(cells[k]) != 0 ==> cells[k] == old(cells[k])
      ensures r.NoSolution? ==> cells[..] == old(cells[..])
      ensures r.Ok? ==> forall k :: 0 <= k < 81 ==> cells[k] != 0
      ensures r.Ok? ==> forall k :: 0 <= k < 81 && old(cells[k]) == 0 ==>
                cells[k] <= 9 && !CellIsProblematic(cells[..], k)
      ensures r.Ok? && (forall k :: 0 <= k < 81 ==> !CellIsProblematic(old(cells[..]), k)) ==>
                IsSolved(cells[..])
    {
      ghost var init := cells[..];
      var guesses: seq<nat> := [];
      var i: nat := 0;
      var ignoreNonZero := true;
      InvDigits(cells[..], init, guesses, i, ignoreNonZero);
      RankBound(Progress(cells[..], init, i, ignoreNonZero), 11);

      while i < 81
        invariant SolveInv(cells[..], init, guesses, i, ignoreNonZero)
        invariant 0 <= Rank(Progress(cells[..], init, i, ignoreNonZero), 11) < Pow(11, 81)
        decreases Pow(11, 81) - Rank(Progress(cells[..], init, i, ignoreNonZero), 11), 81 - i
      {
        var exhausted;
        exhausted, guesses, i, ignoreNonZero := SolveRound(init, guesses, i, ignoreNonZero);
        if exhausted {
          return NoSolution;
        }
      }
      FinishStep(cells[..], init, guesses, ignoreNonZero);
      return Ok(());
    }
  }
}
