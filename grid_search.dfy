/** The proof state of `SudokuGrid::depth_first_solve`: the list of cells it fills, the
    invariant that holds between two rounds of its loop, the measure that shows it terminates,
    and one lemma per kind of step. */
module GridSearch {
  import opened Common
  import opened GridLayout
  import opened GridRegion

  /** The empty cells among `ks`, in order: the cells `depth_first_solve` guesses. */
  function ZeroCells(c: seq<Byte>, ks: seq<nat>): (r: seq<nat>)
    requires forall k :: 0 <= k < |ks| ==> ks[k] < |c|
    ensures |r| <= |ks|
    ensures forall p :: 0 <= p < |r| ==> r[p] in ks && r[p] < |c| && c[r[p]] == 0
    ensures forall k :: 0 <= k < |ks| && c[ks[k]] == 0 ==> ks[k] in r
  {
    if ks == [] then []
    else
      var rest := ZeroCells(c, ks[1..]);
      assert forall k :: 1 <= k < |ks| ==> ks[k] == ks[1..][k - 1];
      if c[ks[0]] == 0 then [ks[0]] + rest else rest
  }

  /** Appending a cell to the list appends it to the filtered list exactly when it is empty,
      so the filter keeps the order of `ks`. */
  lemma {:induction false} ZeroCellsAppend(c: seq<Byte>, ks: seq<nat>, k: nat)
    requires forall j :: 0 <= j < |ks| ==> ks[j] < |c|
    requires k < |c|
    ensures ZeroCells(c, ks + [k]) == ZeroCells(c, ks) + (if c[k] == 0 then [k] else [])
    decreases |ks|
  {
    if ks != [] {
      assert (ks + [k])[1..] == ks[1..] + [k];
      ZeroCellsAppend(c, ks[1..], k);
    }
  }

  /** Position p holds the first occurrence of its cell in `idx`. */
  predicate FirstOcc(idx: seq<nat>, p: nat)
    requires p < |idx|
  {
    idx[p] !in idx[..p]
  }

  /** Every cell of `idx` has a first occurrence. */
  lemma FirstOccurrence(idx: seq<nat>, p: nat) returns (q: nat)
    requires p < |idx|
    ensures q <= p && idx[q] == idx[p] && FirstOcc(idx, q)
    decreases p
  {
    if FirstOcc(idx, p) {
      q := p;
    } else {
      var q' :| 0 <= q' < p && idx[..p][q'] == idx[p];
      q := FirstOccurrence(idx, q');
    }
  }

  /** The cells to fill lie in the puzzle, inside the store, and start out empty. */
  predicate Setup(init: seq<Byte>, s: Sudoku, idx: seq<nat>)
  {
    Fits(s, |init|) &&
    forall p :: 0 <= p < |idx| ==> idx[p] < |init| && InPuzzle(s, idx[p]) && init[idx[p]] == 0
  }

  /** Every empty cell of the puzzle is listed. */
  predicate Complete(init: seq<Byte>, s: Sudoku, idx: seq<nat>)
    requires |s.blockStart| == 9
  {
    forall j: nat :: j < |init| && InPuzzle(s, j) && init[j] == 0 ==> j in idx
  }

  /** `Sudoku::indexes` lies inside the store. */
  lemma IndexesInside(s: Sudoku, len: nat)
    requires Fits(s, len)
    ensures forall k :: 0 <= k < 81 ==> Indexes(s)[k] < len
  {
    IndexOrderPermutes();
  }

  /** The cells `depth_first_solve` guesses, the empty cells of `Sudoku::indexes`, are exactly
      the puzzle's empty cells; there are none when the puzzle is full. */
  lemma SearchSetup(init: seq<Byte>, s: Sudoku)
    requires Fits(s, |init|)
    ensures forall k :: 0 <= k < 81 ==> Indexes(s)[k] < |init|
    ensures Setup(init, s, ZeroCells(init, Indexes(s))) && Complete(init, s, ZeroCells(init, Indexes(s)))
    ensures (forall j: nat :: j < |init| && InPuzzle(s, j) ==> init[j] != 0) ==> ZeroCells(init, Indexes(s)) == []
  {
    IndexesInside(s, |init|);
    var idx := ZeroCells(init, Indexes(s));
    forall p | 0 <= p < |idx| ensures InPuzzle(s, idx[p]) {
      IndexesMembers(s, idx[p]);
    }
    forall j: nat | j < |init| && InPuzzle(s, j) && init[j] == 0 ensures j in idx {
      IndexesMembers(s, j);
    }
    if idx != [] {
      var j: nat := idx[0];
      assert j < |init| && InPuzzle(s, j) && init[j] == 0;
    }
  }

  /** The store whose checks the accepted guesses are known to pass: while the search resumes
      a guess (`ignoreNonZero` false) the resumed cell counts as empty. */
  function Pending(c: seq<Byte>, idx: seq<nat>, i: nat, ignoreNonZero: bool): seq<Byte>
  {
    if !ignoreNonZero && i < |idx| && idx[i] < |c| then c[idx[i] := 0] else c
  }

  /** The guess stack holds, in increasing order, exactly the first occurrences before the
      cursor i. */
  predicate Stack(idx: seq<nat>, guesses: seq<nat>, i: nat)
  {
    i <= |idx| &&
    (forall t :: 0 <= t < |guesses| ==> guesses[t] < i && FirstOcc(idx, guesses[t])) &&
    (forall t, u :: 0 <= t < u < |guesses| ==> guesses[t] < guesses[u]) &&
    (forall p :: 0 <= p < i && FirstOcc(idx, p) ==> p in guesses)
  }

  /** Cells outside `idx` hold what they held at the start. */
  predicate Untouched(c: seq<Byte>, init: seq<Byte>, idx: seq<nat>)
  {
    |c| == |init| && forall j :: 0 <= j < |c| && j !in idx ==> c[j] == init[j]
  }

  /** First occurrences before the cursor hold a digit; those from the cursor on are empty,
      except the cursor's own cell while it is being resumed (`ignoreNonZero` false), which
      holds a digit. */
  predicate Placed(c: seq<Byte>, idx: seq<nat>, i: nat, ignoreNonZero: bool)
    requires forall p :: 0 <= p < |idx| ==> idx[p] < |c|
  {
    (forall p :: 0 <= p < i && p < |idx| && FirstOcc(idx, p) ==> 1 <= c[idx[p]] <= 9) &&
    (forall p :: i <= p < |idx| && FirstOcc(idx, p) && (p != i || ignoreNonZero) ==> c[idx[p]] == 0) &&
    (!ignoreNonZero ==> i < |idx| && FirstOcc(idx, i) && 1 <= c[idx[i]] <= 9)
  }

  /** Every guessed cell before position i passes its checks in `c`. */
  ghost predicate GuessesPass(c: seq<Byte>, s: Sudoku, idx: seq<nat>, i: nat)
    requires |s.blockStart| == 9 && forall p :: 0 <= p < |idx| ==> InPuzzle(s, idx[p])
  {
    forall p {:trigger CellIsProblematic(c, s, idx[p])} :: 0 <= p < i && p < |idx| && FirstOcc(idx, p) ==>
      !CellIsProblematic(c, s, idx[p])
  }

  /** The state between two rounds of `depth_first_solve`, started from `init`, over the cells
      `idx`. Only first occurrences are ever guessed: a repeated cell was filled at its first
      occurrence and is skipped. When no blocks alias, every guessed cell passes its checks. */
  ghost predicate SolveInv(c: seq<Byte>, init: seq<Byte>, s: Sudoku, idx: seq<nat>,
                           guesses: seq<nat>, i: nat, ignoreNonZero: bool)
    requires |c| == |init| && Setup(init, s, idx)
  {
    Stack(idx, guesses, i) && Untouched(c, init, idx) && Placed(c, idx, i, ignoreNonZero) &&
    (NoAlias(s) ==> GuessesPass(Pending(c, idx, i, ignoreNonZero), s, idx, i))
  }

  /** The search's progress: the guessed cells read as digits in position order, where the cell
      being resumed counts one higher (its next value is pending). Repeated cells count as 0. */
  ghost function Progress(c: seq<Byte>, idx: seq<nat>, i: nat, ignoreNonZero: bool): seq<int>
    requires forall p :: 0 <= p < |idx| ==> idx[p] < |c|
  {
    seq(|idx|, p requires 0 <= p < |idx| =>
      if !FirstOcc(idx, p) then 0 else c[idx[p]] as int + (if p == i && !ignoreNonZero then 1 else 0))
  }

  lemma PlacedDigits(c: seq<Byte>, idx: seq<nat>, i: nat, ignoreNonZero: bool)
    requires forall p :: 0 <= p < |idx| ==> idx[p] < |c|
    requires Placed(c, idx, i, ignoreNonZero)
    ensures Digits(Progress(c, idx, i, ignoreNonZero), 11)
  {
  }

  /** An empty cell at a position is a first occurrence: a repeat would hold the digit guessed at
      its first occurrence. */
  lemma EmptyCursorIsFirst(c: seq<Byte>, idx: seq<nat>, i: nat, ignoreNonZero: bool)
    requires forall p :: 0 <= p < |idx| ==> idx[p] < |c|
    requires Placed(c, idx, i, ignoreNonZero)
    requires i < |idx| && c[idx[i]] == 0
    ensures FirstOcc(idx, i)
  {
    var q := FirstOccurrence(idx, i);
  }

  lemma UntouchedWrite(c: seq<Byte>, init: seq<Byte>, idx: seq<nat>, j: nat, v: Byte)
    requires Untouched(c, init, idx) && j in idx && j < |c|
    ensures Untouched(c[j := v], init, idx)
  {
  }

  // ---- Skipping a repeated cell ----

  /** Skipping a filled cell keeps the invariant and the measure. */
  lemma SkipStep(c: seq<Byte>, init: seq<Byte>, s: Sudoku, idx: seq<nat>, guesses: seq<nat>, i: nat)
    requires |c| == |init| && Setup(init, s, idx) && SolveInv(c, init, s, idx, guesses, i, true)
    requires i < |idx| && c[idx[i]] > 0
    ensures SolveInv(c, init, s, idx, guesses, i + 1, true)
    ensures Progress(c, idx, i + 1, true) == Progress(c, idx, i, true)
  {
    assert !FirstOcc(idx, i);
    StackSkip(idx, guesses, i);
    PlacedSkip(c, idx, i);
    if NoAlias(s) {
      PassSkip(c, s, idx, i);
    }
  }

  lemma StackSkip(idx: seq<nat>, guesses: seq<nat>, i: nat)
    requires Stack(idx, guesses, i) && i < |idx| && !FirstOcc(idx, i)
    ensures Stack(idx, guesses, i + 1)
  {
  }

  lemma PlacedSkip(c: seq<Byte>, idx: seq<nat>, i: nat)
    requires forall p :: 0 <= p < |idx| ==> idx[p] < |c|
    requires Placed(c, idx, i, true) && i < |idx| && !FirstOcc(idx, i)
    ensures Placed(c, idx, i + 1, true)
  {
  }

  lemma PassSkip(c: seq<Byte>, s: Sudoku, idx: seq<nat>, i: nat)
    requires |s.blockStart| == 9 && forall p :: 0 <= p < |idx| ==> InPuzzle(s, idx[p])
    requires GuessesPass(c, s, idx, i) && i < |idx| && !FirstOcc(idx, i)
    ensures GuessesPass(c, s, idx, i + 1)
  {
    forall p | 0 <= p < i + 1 && FirstOcc(idx, p) ensures !CellIsProblematic(c, s, idx[p]) {
      assert p < i;
    }
  }

  // ---- Keeping a guess ----

  /** Keeping a guess v for the cursor's cell that passes its checks pushes the cursor and moves
      on; the measure grows, or stays put while the cursor advances. */
  lemma AcceptStep(c: seq<Byte>, init: seq<Byte>, s: Sudoku, idx: seq<nat>, guesses: seq<nat>, i: nat,
                   ignoreNonZero: bool, v: Byte)
    requires |c| == |init| && Setup(init, s, idx) && SolveInv(c, init, s, idx, guesses, i, ignoreNonZero)
    requires i < |idx| && (ignoreNonZero ==> c[idx[i]] == 0) && c[idx[i]] < v <= 9
    requires !CellIsProblematic(c[idx[i] := v], s, idx[i])
    ensures SolveInv(c[idx[i] := v], init, s, idx, guesses + [i], i + 1, true)
    ensures Rank(Progress(c, idx, i, ignoreNonZero), 11) < Rank(Progress(c[idx[i] := v], idx, i + 1, true), 11)
         || Progress(c[idx[i] := v], idx, i + 1, true) == Progress(c, idx, i, ignoreNonZero)
    ensures Rank(Progress(c[idx[i] := v], idx, i + 1, true), 11) < Pow(11, |idx|)
  {
    if ignoreNonZero {
      EmptyCursorIsFirst(c, idx, i, ignoreNonZero);
    }
    StackPush(idx, guesses, i);
    UntouchedWrite(c, init, idx, idx[i], v);
    PlacedAccept(c, idx, i, ignoreNonZero, v);
    if NoAlias(s) {
      PassAccept(c, s, idx, i, ignoreNonZero, v);
    }
    ProgressAccept(c, idx, i, ignoreNonZero, v);
  }

  lemma StackPush(idx: seq<nat>, guesses: seq<nat>, i: nat)
    requires Stack(idx, guesses, i) && i < |idx| && FirstOcc(idx, i)
    ensures Stack(idx, guesses + [i], i + 1)
  {
  }

  lemma PlacedAccept(c: seq<Byte>, idx: seq<nat>, i: nat, ignoreNonZero: bool, v: Byte)
    requires forall p :: 0 <= p < |idx| ==> idx[p] < |c|
    requires Placed(c, idx, i, ignoreNonZero) && i < |idx| && FirstOcc(idx, i) && 1 <= v <= 9
    ensures Placed(c[idx[i] := v], idx, i + 1, true)
  {
    var c' := c[idx[i] := v];
    forall p | 0 <= p < i + 1 && p < |idx| && FirstOcc(idx, p) ensures 1 <= c'[idx[p]] <= 9 {
      if p < i { assert idx[..i][p] == idx[p]; }
    }
    forall p | i + 1 <= p < |idx| && FirstOcc(idx, p) ensures c'[idx[p]] == 0 {
      assert idx[..p][i] == idx[i];
    }
  }

  lemma PassAccept(c: seq<Byte>, s: Sudoku, idx: seq<nat>, i: nat, ignoreNonZero: bool, v: Byte)
    requires Aligned(s) && NoAlias(s) && forall p :: 0 <= p < |idx| ==> InPuzzle(s, idx[p]) && idx[p] < |c|
    requires i < |idx| && (ignoreNonZero ==> c[idx[i]] == 0)
    requires GuessesPass(Pending(c, idx, i, ignoreNonZero), s, idx, i)
    requires !CellIsProblematic(c[idx[i] := v], s, idx[i])
    ensures GuessesPass(c[idx[i] := v], s, idx, i + 1)
  {
    var c' := c[idx[i] := v];
    var before := Pending(c, idx, i, ignoreNonZero);
    assert before[idx[i] := v] == c';
    forall p | 0 <= p < i + 1 && FirstOcc(idx, p) ensures !CellIsProblematic(c', s, idx[p]) {
      if p < i {
        WriteKeepsUnproblematic(before, s, idx[p], idx[i], v);
      }
    }
  }

  lemma ProgressAccept(c: seq<Byte>, idx: seq<nat>, i: nat, ignoreNonZero: bool, v: Byte)
    requires forall p :: 0 <= p < |idx| ==> idx[p] < |c|
    requires Placed(c, idx, i, ignoreNonZero) && i < |idx| && FirstOcc(idx, i)
    requires (ignoreNonZero ==> c[idx[i]] == 0) && c[idx[i]] < v <= 9
    ensures Rank(Progress(c, idx, i, ignoreNonZero), 11) < Rank(Progress(c[idx[i] := v], idx, i + 1, true), 11)
         || Progress(c[idx[i] := v], idx, i + 1, true) == Progress(c, idx, i, ignoreNonZero)
    ensures Rank(Progress(c[idx[i] := v], idx, i + 1, true), 11) < Pow(11, |idx|)
  {
    AcceptRises(c, idx, i, ignoreNonZero, v);
    AcceptBounded(c, idx, i, ignoreNonZero, v);
  }

  lemma AcceptRises(c: seq<Byte>, idx: seq<nat>, i: nat, ignoreNonZero: bool, v: Byte)
    requires forall p :: 0 <= p < |idx| ==> idx[p] < |c|
    requires Placed(c, idx, i, ignoreNonZero) && i < |idx| && FirstOcc(idx, i)
    requires (ignoreNonZero ==> c[idx[i]] == 0) && c[idx[i]] < v <= 9
    ensures Rank(Progress(c, idx, i, ignoreNonZero), 11) < Rank(Progress(c[idx[i] := v], idx, i + 1, true), 11)
         || Progress(c[idx[i] := v], idx, i + 1, true) == Progress(c, idx, i, ignoreNonZero)
  {
    var c' := c[idx[i] := v];
    PlacedAccept(c, idx, i, ignoreNonZero, v);
    var before := Progress(c, idx, i, ignoreNonZero);
    var after := Progress(c', idx, i + 1, true);
    PlacedDigits(c, idx, i, ignoreNonZero);
    PlacedDigits(c', idx, i + 1, true);
    AcceptAgrees(c, idx, i, ignoreNonZero, v);
    if after != before {
      assert before[i] < after[i];
      RankPointwiseLess(before, after, i, 11);
    }
  }

  lemma AcceptBounded(c: seq<Byte>, idx: seq<nat>, i: nat, ignoreNonZero: bool, v: Byte)
    requires forall p :: 0 <= p < |idx| ==> idx[p] < |c|
    requires Placed(c, idx, i, ignoreNonZero) && i < |idx| && FirstOcc(idx, i) && 1 <= v <= 9
    ensures Rank(Progress(c[idx[i] := v], idx, i + 1, true), 11) < Pow(11, |idx|)
  {
    var c' := c[idx[i] := v];
    PlacedAccept(c, idx, i, ignoreNonZero, v);
    PlacedDigits(c', idx, i + 1, true);
    RankBound(Progress(c', idx, i + 1, true), 11);
  }

  /** Keeping a guess changes the progress only at the cursor. */
  lemma AcceptAgrees(c: seq<Byte>, idx: seq<nat>, i: nat, ignoreNonZero: bool, v: Byte)
    requires forall p :: 0 <= p < |idx| ==> idx[p] < |c|
    requires i < |idx| && FirstOcc(idx, i)
    ensures forall p :: 0 <= p < |idx| && p != i ==>
      Progress(c[idx[i] := v], idx, i + 1, true)[p] == Progress(c, idx, i, ignoreNonZero)[p]
  {
    var c' := c[idx[i] := v];
    forall p | 0 <= p < |idx| && p != i && FirstOcc(idx, p) ensures c'[idx[p]] == c[idx[p]] {
      if p < i {
        assert idx[..i][p] == idx[p];
      } else {
        assert idx[..p][i] == idx[i];
      }
    }
  }

  // ---- A guess that runs out ----

  /** The guess for the cursor ran up to 9 without passing: the state, with that 9 in place, is
      a resumed state whose measure is larger. */
  lemma GuessFailed(c: seq<Byte>, init: seq<Byte>, s: Sudoku, idx: seq<nat>, guesses: seq<nat>, i: nat,
                    ignoreNonZero: bool)
    requires |c| == |init| && Setup(init, s, idx) && SolveInv(c, init, s, idx, guesses, i, ignoreNonZero)
    requires i < |idx| && (ignoreNonZero ==> c[idx[i]] == 0) && (!ignoreNonZero ==> c[idx[i]] <= 8)
    ensures SolveInv(c[idx[i] := 9], init, s, idx, guesses, i, false)
    ensures Rank(Progress(c, idx, i, ignoreNonZero), 11) < Rank(Progress(c[idx[i] := 9], idx, i, false), 11)
    ensures Rank(Progress(c[idx[i] := 9], idx, i, false), 11) < Pow(11, |idx|)
  {
    var c' := c[idx[i] := 9];
    if ignoreNonZero {
      EmptyCursorIsFirst(c, idx, i, ignoreNonZero);
    }
    UntouchedWrite(c, init, idx, idx[i], 9);
    PlacedResume(c, idx, i, ignoreNonZero);
    assert Pending(c', idx, i, false) == Pending(c, idx, i, ignoreNonZero);
    ProgressResume(c, idx, i, ignoreNonZero);
  }

  lemma PlacedResume(c: seq<Byte>, idx: seq<nat>, i: nat, ignoreNonZero: bool)
    requires forall p :: 0 <= p < |idx| ==> idx[p] < |c|
    requires Placed(c, idx, i, ignoreNonZero) && i < |idx| && FirstOcc(idx, i)
    ensures Placed(c[idx[i] := 9], idx, i, false)
  {
    var c' := c[idx[i] := 9];
    forall p | 0 <= p < i && FirstOcc(idx, p) ensures c'[idx[p]] == c[idx[p]] {
      assert idx[..i][p] == idx[p];
    }
    forall p | i < p < |idx| && FirstOcc(idx, p) ensures c'[idx[p]] == c[idx[p]] {
      assert idx[..p][i] == idx[i];
    }
  }

  lemma ProgressResume(c: seq<Byte>, idx: seq<nat>, i: nat, ignoreNonZero: bool)
    requires forall p :: 0 <= p < |idx| ==> idx[p] < |c|
    requires Placed(c, idx, i, ignoreNonZero) && i < |idx| && FirstOcc(idx, i)
    requires (ignoreNonZero ==> c[idx[i]] == 0) && (!ignoreNonZero ==> c[idx[i]] <= 8)
    ensures Rank(Progress(c, idx, i, ignoreNonZero), 11) < Rank(Progress(c[idx[i] := 9], idx, i, false), 11)
    ensures Rank(Progress(c[idx[i] := 9], idx, i, false), 11) < Pow(11, |idx|)
  {
    var c' := c[idx[i] := 9];
    PlacedResume(c, idx, i, ignoreNonZero);
    var before := Progress(c, idx, i, ignoreNonZero);
    var after := Progress(c', idx, i, false);
    PlacedDigits(c, idx, i, ignoreNonZero);
    PlacedDigits(c', idx, i, false);
    forall p | 0 <= p < i ensures after[p] == before[p] {
      assert idx[..i][p] == idx[p];
    }
    RankPointwiseLess(before, after, i, 11);
    RankBound(after, 11);
  }

  // ---- Backing up ----

  /** Clearing the resumed cell and resuming the latest guess keeps the invariant, and the
      measure grows: that guess's pending value counts one higher. */
  lemma BacktrackStep(c: seq<Byte>, init: seq<Byte>, s: Sudoku, idx: seq<nat>, guesses: seq<nat>, i: nat)
    requires |c| == |init| && Setup(init, s, idx) && SolveInv(c, init, s, idx, guesses, i, false)
    requires |guesses| > 0
    ensures SolveInv(c[idx[i] := 0], init, s, idx, guesses[..|guesses| - 1], guesses[|guesses| - 1], false)
    ensures Rank(Progress(c, idx, i, false), 11)
          < Rank(Progress(c[idx[i] := 0], idx, guesses[|guesses| - 1], false), 11) < Pow(11, |idx|)
  {
    var g := guesses[|guesses| - 1];
    var c' := c[idx[i] := 0];
    StackPop(idx, guesses, i);
    UntouchedWrite(c, init, idx, idx[i], 0);
    PlacedBacktrack(c, idx, i, g);
    if NoAlias(s) {
      assert Pending(c, idx, i, false) == c';
      PassBacktrack(c', s, idx, i, g);
      assert Pending(c', idx, g, false) == c'[idx[g] := 0];
    }
    ProgressBacktrack(c, idx, i, g);
  }

  lemma StackPop(idx: seq<nat>, guesses: seq<nat>, i: nat)
    requires Stack(idx, guesses, i) && |guesses| > 0
    ensures var g := guesses[|guesses| - 1];
      Stack(idx, guesses[..|guesses| - 1], g) && g < i && FirstOcc(idx, g) &&
      forall p :: g < p < i ==> !FirstOcc(idx, p)
  {
    var g := guesses[|guesses| - 1];
    var rest := guesses[..|guesses| - 1];
    forall p | 0 <= p < g && FirstOcc(idx, p) ensures p in rest {
      var t :| 0 <= t < |guesses| && guesses[t] == p;
      assert rest[t] == p;
    }
    forall p | g < p < i ensures !FirstOcc(idx, p) {
      NotStacked(idx, guesses, i, p);
    }
  }

  /** A position between the top of the stack and the cursor is not a first occurrence. */
  lemma NotStacked(idx: seq<nat>, guesses: seq<nat>, i: nat, p: nat)
    requires Stack(idx, guesses, i) && |guesses| > 0 && guesses[|guesses| - 1] < p < i
    ensures !FirstOcc(idx, p)
  {
    forall t | 0 <= t < |guesses| ensures guesses[t] != p {
      assert guesses[t] <= guesses[|guesses| - 1];
    }
  }

  lemma PlacedBacktrack(c: seq<Byte>, idx: seq<nat>, i: nat, g: nat)
    requires forall p :: 0 <= p < |idx| ==> idx[p] < |c|
    requires Placed(c, idx, i, false) && g < i && FirstOcc(idx, g)
    requires forall p :: g < p < i ==> !FirstOcc(idx, p)
    ensures Placed(c[idx[i] := 0], idx, g, false)
  {
    var c' := c[idx[i] := 0];
    forall p | 0 <= p <= g && FirstOcc(idx, p) ensures c'[idx[p]] == c[idx[p]] {
      assert idx[..i][p] == idx[p];
    }
  }

  lemma PassBacktrack(c: seq<Byte>, s: Sudoku, idx: seq<nat>, i: nat, g: nat)
    requires |s.blockStart| == 9 && forall p :: 0 <= p < |idx| ==> InPuzzle(s, idx[p]) && idx[p] < |c|
    requires GuessesPass(c, s, idx, i) && g < i && g < |idx|
    ensures GuessesPass(c[idx[g] := 0], s, idx, g)
  {
    forall p | 0 <= p < g && FirstOcc(idx, p) ensures !CellIsProblematic(c[idx[g] := 0], s, idx[p]) {
      ClearKeepsUnproblematic(c, s, idx[p], idx[g]);
    }
  }

  lemma ProgressBacktrack(c: seq<Byte>, idx: seq<nat>, i: nat, g: nat)
    requires forall p :: 0 <= p < |idx| ==> idx[p] < |c|
    requires Placed(c, idx, i, false) && g < i && FirstOcc(idx, g)
    requires forall p :: g < p < i ==> !FirstOcc(idx, p)
    ensures Rank(Progress(c, idx, i, false), 11)
          < Rank(Progress(c[idx[i] := 0], idx, g, false), 11) < Pow(11, |idx|)
  {
    var c' := c[idx[i] := 0];
    PlacedBacktrack(c, idx, i, g);
    var before := Progress(c, idx, i, false);
    var after := Progress(c', idx, g, false);
    PlacedDigits(c, idx, i, false);
    PlacedDigits(c', idx, g, false);
    BacktrackAgrees(c, idx, i, g);
    RankPointwiseLess(before, after, g, 11);
    RankBound(after, 11);
  }

  /** Backing up leaves the progress before the resumed guess alone. */
  lemma BacktrackAgrees(c: seq<Byte>, idx: seq<nat>, i: nat, g: nat)
    requires forall p :: 0 <= p < |idx| ==> idx[p] < |c|
    requires g < i < |idx| && FirstOcc(idx, i)
    ensures forall p :: 0 <= p < g ==>
      Progress(c[idx[i] := 0], idx, g, false)[p] == Progress(c, idx, i, false)[p]
  {
    forall p | 0 <= p < g ensures c[idx[i] := 0][idx[p]] == c[idx[p]] {
      assert idx[..i][p] == idx[p];
    }
  }

  // ---- The two ends of the search ----

  /** Before the first round nothing is guessed and every listed cell is empty. */
  lemma StartInv(init: seq<Byte>, s: Sudoku, idx: seq<nat>)
    requires Setup(init, s, idx)
    ensures SolveInv(init, init, s, idx, [], 0, true)
    ensures 0 <= Rank(Progress(init, idx, 0, true), 11) < Pow(11, |idx|)
  {
    PlacedDigits(init, idx, 0, true);
    RankBound(Progress(init, idx, 0, true), 11);
  }

  /** With nothing left to resume, clearing the cursor's cell restores the store it started from. */
  lemma ExhaustedStep(c: seq<Byte>, init: seq<Byte>, s: Sudoku, idx: seq<nat>, i: nat)
    requires |c| == |init| && Setup(init, s, idx) && SolveInv(c, init, s, idx, [], i, false)
    ensures c[idx[i] := 0] == init
  {
    forall j | 0 <= j < |c| ensures c[idx[i] := 0][j] == init[j] {
      if j in idx && j != idx[i] {
        var p :| 0 <= p < |idx| && idx[p] == j;
        var q := FirstOccurrence(idx, p);
      }
    }
  }

  /** What a search that reached the end leaves behind. */
  lemma FinishStep(c: seq<Byte>, init: seq<Byte>, s: Sudoku, idx: seq<nat>, guesses: seq<nat>, ignoreNonZero: bool)
    requires |c| == |init| && Setup(init, s, idx) && SolveInv(c, init, s, idx, guesses, |idx|, ignoreNonZero)
    ensures forall p :: 0 <= p < |idx| ==> 1 <= c[idx[p]] <= 9
    ensures NoAlias(s) ==> forall p :: 0 <= p < |idx| ==> !CellIsProblematic(c, s, idx[p])
  {
    assert ignoreNonZero;
    forall p | 0 <= p < |idx|
      ensures 1 <= c[idx[p]] <= 9 && (NoAlias(s) ==> !CellIsProblematic(c, s, idx[p]))
    {
      var q := FirstOccurrence(idx, p);
    }
  }

  /** What a search that reached the end promises about the whole store: only the puzzle's
      empty cells changed, each to a digit; with no aliasing each of them passes its checks, and
      a puzzle that had no problematic cell is now solved. */
  lemma SearchOutcome(c: seq<Byte>, init: seq<Byte>, s: Sudoku, idx: seq<nat>, guesses: seq<nat>,
                      ignoreNonZero: bool)
    requires |c| == |init| && Setup(init, s, idx) && Complete(init, s, idx)
    requires SolveInv(c, init, s, idx, guesses, |idx|, ignoreNonZero)
    ensures forall j: nat :: j < |c| && (!InPuzzle(s, j) || init[j] != 0) ==> c[j] == init[j]
    ensures forall j: nat :: j < |c| && InPuzzle(s, j) && init[j] == 0 ==> 1 <= c[j] <= 9
    ensures NoAlias(s) ==>
      forall j: nat :: j < |c| && InPuzzle(s, j) && init[j] == 0 ==> !CellIsProblematic(c, s, j)
    ensures NoAlias(s) && NoProblems(init, s) ==> IsSolved(c, s)
  {
    FinishStep(c, init, s, idx, guesses, ignoreNonZero);
    forall j: nat | j < |c| && (!InPuzzle(s, j) || init[j] != 0) ensures c[j] == init[j] {
      assert forall p :: 0 <= p < |idx| ==> idx[p] != j;
    }
    forall j: nat | j < |c| && InPuzzle(s, j) && init[j] == 0
      ensures 1 <= c[j] <= 9 && (NoAlias(s) ==> !CellIsProblematic(c, s, j))
    {
      var p :| 0 <= p < |idx| && idx[p] == j;
    }
    if NoAlias(s) && NoProblems(init, s) {
      SolvedAtEnd(init, c, s, idx);
    }
  }

  // ---- A finished search on a grid without aliasing ----

  /** When no blocks alias, a search that filled every empty cell of the puzzle with a digit
      that passes its checks leaves a solved puzzle, provided no cell was problematic before:
      each region either holds a guessed cell, whose check covers that very region, or is
      untouched. */
  lemma SolvedAtEnd(init: seq<Byte>, c: seq<Byte>, s: Sudoku, idx: seq<nat>)
    requires Setup(init, s, idx) && NoAlias(s) && Untouched(c, init, idx)
    requires forall j: nat :: j < |init| && InPuzzle(s, j) && init[j] == 0 ==> j in idx
    requires forall p :: 0 <= p < |idx| ==> 1 <= c[idx[p]] <= 9 && !CellIsProblematic(c, s, idx[p])
    requires NoProblems(init, s)
    ensures IsSolved(c, s)
  {
    NoAliasMiddleUnaliased(s);
    forall j: nat | InPuzzle(s, j) && j < |c| ensures c[j] != 0 {
      if j in idx {
        var p :| 0 <= p < |idx| && idx[p] == j;
      }
    }
    forall k: nat | InPuzzle(s, k) ensures !CellIsProblematic(c, s, k) {
      if k in idx {
        var p :| 0 <= p < |idx| && idx[p] == k;
      } else {
        RowForKept(init, c, s, idx, k);
        ColumnForKept(init, c, s, idx, k);
        BlockForKept(init, c, s, idx, k);
      }
    }
    SolvedIffNoProblems(c, s);
  }

  /** A region none of whose cells was guessed keeps its values. */
  lemma UntouchedRegion(init: seq<Byte>, c: seq<Byte>, idx: seq<nat>, region: seq<nat>)
    requires Untouched(c, init, idx)
    requires forall t :: 0 <= t < |region| ==> region[t] < |c| && region[t] !in idx
    ensures Values(c, region) == Values(init, region)
  {
  }

  lemma RowForKept(init: seq<Byte>, c: seq<Byte>, s: Sudoku, idx: seq<nat>, k: nat)
    requires Setup(init, s, idx) && NoAlias(s) && Untouched(c, init, idx) && InPuzzle(s, k)
    requires forall p :: 0 <= p < |idx| ==> !CellIsProblematic(c, s, idx[p])
    requires !CellIsProblematic(init, s, k)
    ensures RegionValid(c, RowFor(s, k), true)
  {
    var r := RowFor(s, k);
    if t :| 0 <= t < |r| && r[t] in idx {
      var p :| 0 <= p < |idx| && idx[p] == r[t];
      RowForCompat(s, k, r[t]);
    } else {
      UntouchedRegion(init, c, idx, r);
    }
  }

  lemma ColumnForKept(init: seq<Byte>, c: seq<Byte>, s: Sudoku, idx: seq<nat>, k: nat)
    requires Setup(init, s, idx) && NoAlias(s) && Untouched(c, init, idx) && InPuzzle(s, k)
    requires forall p :: 0 <= p < |idx| ==> !CellIsProblematic(c, s, idx[p])
    requires !CellIsProblematic(init, s, k)
    ensures RegionValid(c, ColumnFor(s, k), true)
  {
    var r := ColumnFor(s, k);
    if t :| 0 <= t < |r| && r[t] in idx {
      var p :| 0 <= p < |idx| && idx[p] == r[t];
      ColumnForCompat(s, k, r[t]);
    } else {
      UntouchedRegion(init, c, idx, r);
    }
  }

  lemma BlockForKept(init: seq<Byte>, c: seq<Byte>, s: Sudoku, idx: seq<nat>, k: nat)
    requires Setup(init, s, idx) && Untouched(c, init, idx) && InPuzzle(s, k)
    requires forall p :: 0 <= p < |idx| ==> !CellIsProblematic(c, s, idx[p])
    requires !CellIsProblematic(init, s, k)
    ensures RegionValid(c, BlockFor(s, k), true)
  {
    var r := BlockFor(s, k);
    if t :| 0 <= t < |r| && r[t] in idx {
      var p :| 0 <= p < |idx| && idx[p] == r[t];
      BlockForCompat(s, k, r[t]);
    } else {
      UntouchedRegion(init, c, idx, r);
    }
  }
}
