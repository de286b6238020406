/** Vocabulary shared by the single-puzzle and the overlapping-grid models: cell bytes,
    coordinates, search outcomes, what it means for the nine values of a region to pass
    validation, the value a region with one gap is missing, and the measure that shows the
    backtracking searches terminate. */
module Common {

  /** A stored cell value (an unsigned 8-bit integer); 0 means the cell is empty. */
  type Byte = b: int | 0 <= b < 256

  /** Puzzle coordinates (x, y) on the torus of puzzles. */
  type Coords = (nat, nat)

  datatype Option<T> = None | Some(value: T)

  /** The outcome of a search: a value, or NoSolution once its state space is exhausted. */
  datatype Result<T> = Ok(value: T) | NoSolution

  /** No value occurs twice in `vs`. */
  predicate Distinct(vs: seq<int>)
  {
    forall k, l :: 0 <= k < l < |vs| ==> vs[k] != vs[l]
  }

  /** The set of values occurring in `vs`. */
  function Elems(vs: seq<int>): set<int>
  {
    set x | x in vs
  }

  /** The digits 1..9 as a sequence, in order. */
  const DIGITS: seq<int> := [1, 2, 3, 4, 5, 6, 7, 8, 9]

  /** The values of a region pass validation: every value is a digit 1..9, or 0 when
      `partial` allows gaps, and no non-zero value occurs twice. */
  predicate ValidValues(vs: seq<int>, partial: bool)
  {
    (forall k :: 0 <= k < |vs| ==> 1 <= vs[k] <= 9 || (partial && vs[k] == 0)) &&
    (forall k, l :: 0 <= k < l < |vs| && vs[k] != 0 ==> vs[k] != vs[l])
  }

  /** The values a region's cell indexes hold in the cell store `c`. */
  function Values(c: seq<Byte>, region: seq<nat>): (vs: seq<int>)
    requires forall k :: 0 <= k < |region| ==> region[k] < |c|
    ensures |vs| == |region| && forall k :: 0 <= k < |region| ==> vs[k] == c[region[k]]
  {
    seq(|region|, k requires 0 <= k < |region| => c[region[k]])
  }

  /** A write outside a region leaves the region's values alone. */
  lemma ValuesFrame(c: seq<Byte>, region: seq<nat>, j: nat, v: Byte)
    requires j < |c| && forall k :: 0 <= k < |region| ==> region[k] < |c|
    requires j !in region
    ensures Values(c[j := v], region) == Values(c, region)
  {
  }

  /** Emptying a cell never breaks partial validity: gaps are ignored. */
  lemma ClearKeepsPartialValid(c: seq<Byte>, region: seq<nat>, j: nat)
    requires j < |c| && forall k :: 0 <= k < |region| ==> region[k] < |c|
    requires ValidValues(Values(c, region), true)
    ensures ValidValues(Values(c[j := 0], region), true)
  {
  }

  /** Validation reads left to right: appending one value keeps the values valid exactly when
      the value is allowed and, unless it is a gap, new. */
  lemma ValidAppend(vs: seq<int>, v: int, partial: bool)
    ensures ValidValues(vs + [v], partial) <==>
      ValidValues(vs, partial) && (1 <= v <= 9 || (partial && v == 0)) && (v == 0 || v !in vs)
  {
    var w := vs + [v];
    assert forall k :: 0 <= k < |vs| ==> vs[k] == w[k];
    if ValidValues(w, partial) {
      assert ValidValues(vs, partial);
      assert 1 <= w[|vs|] <= 9 || (partial && w[|vs|] == 0);
    }
    if ValidValues(vs, partial) && (1 <= v <= 9 || (partial && v == 0)) && (v == 0 || v !in vs) {
      forall k | 0 <= k < |w| ensures 1 <= w[k] <= 9 || (partial && w[k] == 0) {
        if k < |vs| { assert w[k] == vs[k]; }
      }
      forall k, l | 0 <= k < l < |w| && w[k] != 0 ensures w[k] != w[l] {
        if l == |vs| { assert w[k] == vs[k]; assert vs[k] in vs; } else { assert w[k] == vs[k] && w[l] == vs[l]; }
      }
    }
  }

  /** Validation of a prefix that fails fails for the whole sequence. */
  lemma InvalidPrefix(vs: seq<int>, t: nat, partial: bool)
    requires t <= |vs| && !ValidValues(vs[..t], partial)
    ensures !ValidValues(vs, partial)
  {
  }

  lemma {:induction false} ElemsCard(vs: seq<int>)
    ensures |Elems(vs)| <= |vs|
    ensures |Elems(vs)| == |vs| <==> Distinct(vs)
  {
    if vs != [] {
      var t := vs[1..];
      ElemsCard(t);
      assert Elems(vs) == Elems(t) + {vs[0]} by {
        forall x ensures x in Elems(vs) <==> x in Elems(t) + {vs[0]} {
          if x in vs && x != vs[0] {
            var k :| 0 <= k < |vs| && vs[k] == x;
            assert t[k - 1] == x;
          }
        }
      }
      if vs[0] in t {
        var k :| 0 <= k < |t| && t[k] == vs[0];
        assert vs[k + 1] == vs[0];
        assert !Distinct(vs);
      } else {
        assert Distinct(vs) <==> Distinct(t) by {
          if Distinct(t) {
            forall k, l | 0 <= k < l < |vs| ensures vs[k] != vs[l] {
              if k == 0 { assert vs[l] == t[l - 1]; } else { assert vs[k] == t[k - 1] && vs[l] == t[l - 1]; }
            }
          }
          if Distinct(vs) {
            forall k, l | 0 <= k < l < |t| ensures t[k] != t[l] {
              assert t[k] == vs[k + 1] && t[l] == vs[l + 1];
            }
          }
        }
      }
    }
  }

  lemma DigitsCard()
    ensures |Elems(DIGITS)| == 9
    ensures forall v :: v in Elems(DIGITS) <==> 1 <= v <= 9
  {
    assert Distinct(DIGITS);
    ElemsCard(DIGITS);
    forall v | 1 <= v <= 9 ensures v in DIGITS {
      assert DIGITS[v - 1] == v;
    }
  }

  /** Nine values pass full validation exactly when they are a permutation of the digits
      1..9 (their set of values is {1, ..., 9}). */
  lemma FullValidIsPermutation(vs: seq<int>)
    requires |vs| == 9
    ensures ValidValues(vs, false) <==> Elems(vs) == Elems(DIGITS)
  {
    DigitsCard();
    ElemsCard(vs);
    if ValidValues(vs, false) {
      assert Distinct(vs);
      assert Elems(vs) <= Elems(DIGITS);
      SubsetSameCard(Elems(vs), Elems(DIGITS));
    }
    if Elems(vs) == Elems(DIGITS) {
      assert Distinct(vs);
      forall k | 0 <= k < 9 ensures 1 <= vs[k] <= 9 {
        assert vs[k] in Elems(vs);
      }
    }
  }

  lemma SubsetSameCard(a: set<int>, b: set<int>)
    requires a <= b && |a| == |b|
    ensures a == b
  {
    assert b == a + (b - a);
    assert a * (b - a) == {};
    assert |b| == |a| + |b - a|;
    assert b - a == {};
  }

  /** The smallest digit 1..9 that does not occur in `vs`, searching from `from`;
      0 when every digit from `from` on occurs. */
  function MissingFrom(vs: seq<int>, from: nat): (r: int)
    requires 1 <= from
    ensures r == 0 || (from <= r <= 9 && r !in vs)
    ensures forall w :: from <= w <= 9 && (r == 0 || w < r) ==> w in vs
    decreases 10 - from
  {
    if from > 9 then 0 else if from !in vs then from else MissingFrom(vs, from + 1)
  }

  /** The smallest digit 1..9 absent from `vs`, or 0 when all nine occur. */
  function MissingValue(vs: seq<int>): (r: int)
    ensures r == 0 <==> forall w :: 1 <= w <= 9 ==> w in vs
    ensures r != 0 ==> 1 <= r <= 9 && r !in vs && forall w :: 1 <= w < r ==> w in vs
  {
    MissingFrom(vs, 1)
  }

  /** Pigeonhole: nine values with exactly one gap (0) cannot cover all nine digits, so the
      value a region with one empty cell is missing is a digit. */
  lemma OneGapMissesADigit(vs: seq<int>, gap: nat)
    requires |vs| == 9 && gap < 9 && vs[gap] == 0
    ensures MissingValue(vs) != 0
  {
    if MissingValue(vs) == 0 {
      DigitsCard();
      ElemsCard(vs);
      assert Elems(DIGITS) + {0} <= Elems(vs);
      assert |Elems(DIGITS) + {0}| == 10;
      SubsetCard(Elems(DIGITS) + {0}, Elems(vs));
      assert false;
    }
  }

  lemma SubsetCard(a: set<int>, b: set<int>)
    requires a <= b
    ensures |a| <= |b|
  {
    assert b == a + (b - a);
  }

  // ---- The termination measure of the backtracking searches ----

  function Pow(base: nat, e: nat): nat
  {
    if e == 0 then 1 else base * Pow(base, e - 1)
  }

  /** `s` read as the digits of a number in the given base, most significant first. */
  function Rank(s: seq<int>, base: nat): int
  {
    if s == [] then 0 else s[0] * Pow(base, |s| - 1) + Rank(s[1..], base)
  }

  predicate Digits(s: seq<int>, base: nat)
  {
    forall k :: 0 <= k < |s| ==> 0 <= s[k] < base
  }

  lemma {:induction false} RankBound(s: seq<int>, base: nat)
    requires Digits(s, base)
    ensures 0 <= Rank(s, base) < Pow(base, |s|)
  {
    if s != [] {
      var p := Pow(base, |s| - 1);
      assert Digits(s[1..], base);
      RankBound(s[1..], base);
      assert Pow(base, |s|) == base * p;
      DigitStep(s[0], p, Rank(s[1..], base), base);
    }
  }

  /** One digit step of a positional number stays below the next power. */
  lemma DigitStep(d: int, p: nat, r: int, base: nat)
    requires 0 <= d < base && 0 <= r < p
    ensures 0 <= d * p + r < base * p
  {
    assert d * p <= (base - 1) * p by { MulMono(d, base - 1, p); }
    assert (base - 1) * p + p == base * p;
  }

  lemma MulMono(a: int, b: int, p: nat)
    requires a <= b
    ensures a * p <= b * p
  {
    assert b * p - a * p == (b - a) * p;
  }

  /** If `a` and `b` agree before position `j` and `a[j] < b[j]`, then `a` is lexicographically
      smaller, and so is its rank. */
  lemma {:induction false} RankLexLess(a: seq<int>, b: seq<int>, j: nat, base: nat)
    requires |a| == |b| && j < |a|
    requires Digits(a, base) && Digits(b, base)
    requires a[..j] == b[..j] && a[j] < b[j]
    ensures Rank(a, base) < Rank(b, base)
  {
    if j == 0 {
      var p := Pow(base, |a| - 1);
      assert Digits(a[1..], base) && Digits(b[1..], base);
      RankBound(a[1..], base);
      RankBound(b[1..], base);
      LeadingDigitWins(a[0], b[0], p, Rank(a[1..], base), Rank(b[1..], base));
    } else {
      assert a[0] == a[..j][0] == b[..j][0] == b[0];
      assert a[1..][..j - 1] == a[..j][1..] == b[..j][1..] == b[1..][..j - 1];
      assert Digits(a[1..], base) && Digits(b[1..], base);
      RankLexLess(a[1..], b[1..], j - 1, base);
    }
  }

  /** Sequences of digits that agree before position j and differ upward at j rank in order. */
  lemma RankPointwiseLess(a: seq<int>, b: seq<int>, j: nat, base: nat)
    requires |a| == |b| && j < |a| && Digits(a, base) && Digits(b, base)
    requires forall p :: 0 <= p < j ==> a[p] == b[p]
    requires a[j] < b[j]
    ensures Rank(a, base) < Rank(b, base)
  {
    assert a[..j] == b[..j];
    RankLexLess(a, b, j, base);
  }

  lemma LeadingDigitWins(da: int, db: int, p: nat, ra: int, rb: int)
    requires da < db && 0 <= ra < p && 0 <= rb
    ensures da * p + ra < db * p + rb
  {
    MulMono(da + 1, db, p);
    assert (da + 1) * p == da * p + p;
  }
}
