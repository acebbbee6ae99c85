/**
 * What finalisation (src/mps_parser.cpp:67-193) must produce from an
 * accumulated state: the row buckets, the objective vector, the bound
 * vectors and the two constraint blocks with their right-hand sides.
 * The methods of the class in parser_state.dfy are proved to produce
 * exactly these; the lemmas here are the properties of the record.
 */
module Assembly {
  import opened LpRecord
  import opened Tables

  /**
   * The indices of the rows that are not the objective row and have type
   * `kind`, in encounter order (the classification loop of
   * src/mps_parser.cpp:104-112).
   */
  function Bucket(rowNames: seq<string>, rowTypes: map<string, char>, objective: string, kind: char): (r: seq<nat>)
    requires forall i | 0 <= i < |rowNames| :: rowNames[i] in rowTypes
    ensures forall k | 0 <= k < |r| :: r[k] < |rowNames|
    ensures forall k, m | 0 <= k < m < |r| :: r[k] < r[m]
    ensures forall i | 0 <= i < |rowNames| :: i in r <==> rowNames[i] != objective && rowTypes[rowNames[i]] == kind
  {
    if rowNames == [] then []
    else
      var n := |rowNames| - 1;
      var init := rowNames[..n];
      var r := Bucket(init, rowTypes, objective, kind);
      if rowNames[n] != objective && rowTypes[rowNames[n]] == kind then r + [n] else r
  }

  /** One more row: its index joins the bucket exactly when the row qualifies. */
  lemma BucketStep(rowNames: seq<string>, rowTypes: map<string, char>, objective: string, kind: char, i: nat)
    requires i < |rowNames| && forall j | 0 <= j < |rowNames| :: rowNames[j] in rowTypes
    ensures var before := Bucket(rowNames[..i], rowTypes, objective, kind);
      Bucket(rowNames[..i + 1], rowTypes, objective, kind)
        == if rowNames[i] != objective && rowTypes[rowNames[i]] == kind then before + [i] else before
  {
    assert rowNames[..i + 1][..i] == rowNames[..i];
  }

  /** The names at the given row indices. */
  function Names(rowNames: seq<string>, idx: seq<nat>): (r: seq<string>)
    requires forall k | 0 <= k < |idx| :: idx[k] < |rowNames|
    ensures |r| == |idx|
    ensures forall k | 0 <= k < |idx| :: r[k] == rowNames[idx[k]]
  {
    if idx == [] then [] else Names(rowNames, idx[..|idx| - 1]) + [rowNames[idx[|idx| - 1]]]
  }

  function Indices(t: Tables, kind: char): seq<nat>
    requires RowsTyped(t)
  {
    Bucket(t.rowNames, t.rowTypes, t.objectiveName, kind)
  }

  /** The names of the E, L or G rows in encounter order. */
  function RowsOf(t: Tables, kind: char): seq<string>
    requires RowsTyped(t)
  {
    Names(t.rowNames, Indices(t, kind))
  }

  /** `rhs_values_.count(row) ? rhs_values_.at(row) : 0.0`. */
  function RhsOf(t: Tables, row: string): real {
    if row in t.rhsValues then t.rhsValues[row] else 0.0
  }

  function ObjectiveCoefficient(t: Tables, col: string): real {
    if col in t.objective then t.objective[col] else 0.0
  }

  predicate HasCoefficient(t: Tables, row: string, col: string) {
    row in t.constraints && col in t.constraints[row]
  }

  function Signed(negate: bool, x: real): real {
    if negate then -x else x
  }

  /** `c`: zero except where the objective row has a coefficient. */
  ghost predicate IsObjectiveVector(t: Tables, c: seq<real>) {
    && |c| == |t.colNames|
    && forall i | 0 <= i < |c| :: c[i] == ObjectiveCoefficient(t, t.colNames[i])
  }

  /** `lb`, `ub`: each column's pair, [0, +inf) for a column without one. */
  ghost predicate IsBoundVectors(t: Tables, lb: seq<Ext>, ub: seq<Ext>) {
    && |lb| == |t.colNames| && |ub| == |t.colNames|
    && (forall i | 0 <= i < |lb| :: lb[i] == BoundOf(t, t.colNames[i]).lower)
    && (forall i | 0 <= i < |ub| :: ub[i] == BoundOf(t, t.colNames[i]).upper)
  }

  /**
   * The entries of a block whose i-th row is constraint row `rows[i]`:
   * one entry per recorded coefficient, at the column's index, negated for
   * the rows from `negFrom` on, and nothing else.
   */
  ghost predicate BlockEntries(t: Tables, rows: seq<string>, negFrom: nat, m: map<(nat, nat), real>) {
    && (forall i: nat, j: nat | (i, j) in m ::
          && i < |rows| && j < |t.colNames|
          && HasCoefficient(t, rows[i], t.colNames[j])
          && m[(i, j)] == Signed(i >= negFrom, t.constraints[rows[i]][t.colNames[j]]))
    && (forall i: nat, j: nat | i < |rows| && j < |t.colNames| && HasCoefficient(t, rows[i], t.colNames[j]) ::
          (i, j) in m)
  }

  /** The right-hand sides of such a block: recorded value or 0, negated from `negFrom` on. */
  ghost predicate BlockRhs(t: Tables, rows: seq<string>, negFrom: nat, b: seq<real>) {
    && |b| == |rows|
    && forall i | 0 <= i < |b| :: b[i] == Signed(i >= negFrom, RhsOf(t, rows[i]))
  }

  /**
   * A whole block: |rows| x n_vars, except that a block without rows keeps
   * Eigen's default 0 x 0 shape and an empty right-hand side
   * (src/mps_parser.cpp:128, 151).
   */
  ghost predicate IsBlock(t: Tables, rows: seq<string>, negFrom: nat, a: SparseMatrix, b: seq<real>) {
    && a.rows == |rows|
    && a.cols == (if rows == [] then 0 else |t.colNames|)
    && BlockEntries(t, rows, negFrom, a.entries)
    && BlockRhs(t, rows, negFrom, b)
  }

  /**
   * The record `parse_mps` builds from an accumulated state
   * (src/mps_parser.cpp:321-328, 344): E rows form A_eq/b_eq unchanged;
   * L rows then G rows form A_ineq/b_ineq, the G rows negated into "<=" form.
   */
  ghost predicate Finalised(t: Tables, lp: LpData)
    requires RowsTyped(t)
  {
    && lp.nVars == |t.colNames|
    && lp.colNames == t.colNames
    && IsObjectiveVector(t, lp.c)
    && IsBoundVectors(t, lp.lb, lp.ub)
    && IsBlock(t, RowsOf(t, 'E'), |RowsOf(t, 'E')|, lp.aEq, lp.bEq)
    && IsBlock(t, RowsOf(t, 'L') + RowsOf(t, 'G'), |RowsOf(t, 'L')|, lp.aIneq, lp.bIneq)
    && lp.objOffset == 0.0
  }

  /**
   * `placed` is `entries` plus the coefficients of constraint row `row` in
   * matrix row `i` (negated when `negate`): one inner loop of `build_matrices`.
   */
  ghost predicate RowPlaced(t: Tables, entries: map<(nat, nat), real>, i: nat, row: string, negate: bool,
                            placed: map<(nat, nat), real>) {
    && (forall a: nat, b: nat | (a, b) in entries :: (a, b) in placed && placed[(a, b)] == entries[(a, b)])
    && (forall a: nat, b: nat | (a, b) in placed && (a, b) !in entries ::
          && a == i && b < |t.colNames| && HasCoefficient(t, row, t.colNames[b])
          && placed[(a, b)] == Signed(negate, t.constraints[row][t.colNames[b]]))
    && (forall b: nat | b < |t.colNames| && HasCoefficient(t, row, t.colNames[b]) :: (i, b) in placed)
  }

  /** Placing the next row extends a block by that row. */
  lemma ExtendBlock(t: Tables, rows: seq<string>, negFrom: nat, row: string, negate: bool,
                    entries: map<(nat, nat), real>, placed: map<(nat, nat), real>, rhs: seq<real>)
    requires BlockEntries(t, rows, negFrom, entries)
    requires BlockRhs(t, rows, negFrom, rhs)
    requires negate == (|rows| >= negFrom)
    requires RowPlaced(t, entries, |rows|, row, negate, placed)
    ensures BlockEntries(t, rows + [row], negFrom, placed)
    ensures BlockRhs(t, rows + [row], negFrom, rhs + [Signed(negate, RhsOf(t, row))])
  {
    var rows' := rows + [row];
    forall i: nat, j: nat | (i, j) in placed
      ensures && i < |rows'| && j < |t.colNames|
              && HasCoefficient(t, rows'[i], t.colNames[j])
              && placed[(i, j)] == Signed(i >= negFrom, t.constraints[rows'[i]][t.colNames[j]])
    {
      if (i, j) in entries {
        assert rows'[i] == rows[i];
      }
    }
    forall i: nat, j: nat | i < |rows'| && j < |t.colNames| && HasCoefficient(t, rows'[i], t.colNames[j])
      ensures (i, j) in placed
    {
      if i < |rows| {
        assert rows'[i] == rows[i];
      }
    }
  }

  // ------------------------------------------------------------ properties

  /**
   * The shapes the record promises (tests/test_mps.cpp:52-112): one
   * objective entry, one lower and one upper bound and one distinct name
   * per variable; one right-hand side per block row; a non-empty block has
   * n_vars columns; every stored entry lies inside its block.
   */
  lemma FinalisedDimensions(t: Tables, lp: LpData)
    requires WellFormed(t) && Finalised(t, lp)
    ensures |lp.c| == lp.nVars && |lp.lb| == lp.nVars && |lp.ub| == lp.nVars && |lp.colNames| == lp.nVars
    ensures forall i, j | 0 <= i < j < |lp.colNames| :: lp.colNames[i] != lp.colNames[j]
    ensures lp.aEq.rows == |lp.bEq| == |Indices(t, 'E')|
    ensures lp.aIneq.rows == |lp.bIneq| == |Indices(t, 'L')| + |Indices(t, 'G')|
    ensures lp.aEq.rows > 0 ==> lp.aEq.cols == lp.nVars
    ensures lp.aIneq.rows > 0 ==> lp.aIneq.cols == lp.nVars
    ensures forall i: nat, j: nat | (i, j) in lp.aEq.entries :: i < lp.aEq.rows && j < lp.aEq.cols
    ensures forall i: nat, j: nat | (i, j) in lp.aIneq.entries :: i < lp.aIneq.rows && j < lp.aIneq.cols
  {
    ColumnNamesDistinct(t);
  }

  /** The i-th E row becomes row i of A_eq and b_eq with its signs unchanged. */
  lemma EqualityRowPlacement(t: Tables, lp: LpData, i: nat, col: string)
    requires WellFormed(t) && Finalised(t, lp)
    requires i < |RowsOf(t, 'E')|
    ensures lp.bEq[i] == RhsOf(t, RowsOf(t, 'E')[i])
    ensures HasCoefficient(t, RowsOf(t, 'E')[i], col) ==>
      && col in t.colIndex
      && (i, t.colIndex[col]) in lp.aEq.entries
      && lp.aEq.entries[(i, t.colIndex[col])] == t.constraints[RowsOf(t, 'E')[i]][col]
  {
    var row := RowsOf(t, 'E')[i];
    if HasCoefficient(t, row, col) {
      assert col in t.constraints[row].Keys;
      var j := t.colIndex[col];
      assert t.colNames[j] == col;
    }
  }

  /** The k-th L row becomes row k of A_ineq and b_ineq with its signs unchanged. */
  lemma LessRowPlacement(t: Tables, lp: LpData, k: nat, col: string)
    requires WellFormed(t) && Finalised(t, lp)
    requires k < |RowsOf(t, 'L')|
    ensures lp.bIneq[k] == RhsOf(t, RowsOf(t, 'L')[k])
    ensures HasCoefficient(t, RowsOf(t, 'L')[k], col) ==>
      && col in t.colIndex
      && (k, t.colIndex[col]) in lp.aIneq.entries
      && lp.aIneq.entries[(k, t.colIndex[col])] == t.constraints[RowsOf(t, 'L')[k]][col]
  {
    var less, greater := RowsOf(t, 'L'), RowsOf(t, 'G');
    var row := less[k];
    assert (less + greater)[k] == row;
    if HasCoefficient(t, row, col) {
      assert col in t.constraints[row].Keys;
      var j := t.colIndex[col];
      assert t.colNames[j] == col;
    }
  }

  /**
   * The k-th G row becomes row |L| + k of A_ineq and b_ineq with every
   * coefficient and its right-hand side negated (a missing one is 0).
   */
  lemma GreaterRowPlacement(t: Tables, lp: LpData, k: nat, col: string)
    requires WellFormed(t) && Finalised(t, lp)
    requires k < |RowsOf(t, 'G')|
    ensures lp.bIneq[|RowsOf(t, 'L')| + k] == -RhsOf(t, RowsOf(t, 'G')[k])
    ensures HasCoefficient(t, RowsOf(t, 'G')[k], col) ==>
      && col in t.colIndex
      && (|RowsOf(t, 'L')| + k, t.colIndex[col]) in lp.aIneq.entries
      && lp.aIneq.entries[(|RowsOf(t, 'L')| + k, t.colIndex[col])] == -t.constraints[RowsOf(t, 'G')[k]][col]
  {
    var less, greater := RowsOf(t, 'L'), RowsOf(t, 'G');
    var i := |less| + k;
    var row := greater[k];
    AppendedIndex(less, greater, k);
    assert lp.bIneq[i] == Signed(true, RhsOf(t, row));
    if HasCoefficient(t, row, col) {
      assert col in t.constraints[row].Keys;
      var j := t.colIndex[col];
      assert t.colNames[j] == col;
    }
  }

  lemma AppendedIndex<X>(a: seq<X>, b: seq<X>, k: nat)
    requires k < |b|
    ensures (a + b)[|a| + k] == b[k]
  {
  }

  /** `c[idx(col)]` is the objective coefficient of `col`, zero when it has none. */
  lemma ObjectiveEntry(t: Tables, lp: LpData, col: string)
    requires WellFormed(t) && Finalised(t, lp)
    requires col in t.colIndex
    ensures t.colIndex[col] < |lp.c|
    ensures lp.c[t.colIndex[col]] == if col in t.objective then t.objective[col] else 0.0
  {
    assert t.colNames[t.colIndex[col]] == col;
  }

  /** A block is determined by its rows: at most one matrix and right-hand side fit. */
  lemma BlockUnique(t: Tables, rows: seq<string>, negFrom: nat, a1: SparseMatrix, b1: seq<real>,
                    a2: SparseMatrix, b2: seq<real>)
    requires IsBlock(t, rows, negFrom, a1, b1) && IsBlock(t, rows, negFrom, a2, b2)
    ensures a1 == a2 && b1 == b2
  {
    forall p: (nat, nat) | p in a1.entries ensures p in a2.entries && a1.entries[p] == a2.entries[p] {
      var (i, j) := p;
      assert (i, j) in a1.entries;
    }
    forall p: (nat, nat) | p in a2.entries ensures p in a1.entries {
      var (i, j) := p;
      assert (i, j) in a2.entries;
    }
    assert a1.entries.Keys == a2.entries.Keys;
    assert a1.entries == a2.entries;
  }

  /** `parse_mps` is deterministic: the state and the clock reading fix the record. */
  lemma FinalisedUnique(t: Tables, lp1: LpData, lp2: LpData)
    requires RowsTyped(t)
    requires Finalised(t, lp1) && Finalised(t, lp2)
    requires lp1.parseTimeSeconds == lp2.parseTimeSeconds
    ensures lp1 == lp2
  {
    BlockUnique(t, RowsOf(t, 'E'), |RowsOf(t, 'E')|, lp1.aEq, lp1.bEq, lp2.aEq, lp2.bEq);
    BlockUnique(t, RowsOf(t, 'L') + RowsOf(t, 'G'), |RowsOf(t, 'L')|, lp1.aIneq, lp1.bIneq, lp2.aIneq, lp2.bIneq);
  }

  /** The blocks do not look at the bounds. */
  lemma BlockIgnoresBounds(t: Tables, u: Tables, rows: seq<string>, negFrom: nat, a: SparseMatrix, b: seq<real>)
    requires u.colNames == t.colNames && u.constraints == t.constraints && u.rhsValues == t.rhsValues
    ensures IsBlock(u, rows, negFrom, a, b) <==> IsBlock(t, rows, negFrom, a, b)
  {
    assert forall row, col :: HasCoefficient(u, row, col) == HasCoefficient(t, row, col);
    assert forall row :: RhsOf(u, row) == RhsOf(t, row);
  }

  /**
   * `set_default_bounds` changes nothing the record is built from: the
   * bound of every column is the same before and after, so the finalised
   * records of the two states coincide.
   */
  lemma DefaultBoundsKeepFinalised(t: Tables, lp: LpData)
    requires RowsTyped(t)
    ensures RowsTyped(SetDefaultBounds(t))
    ensures Finalised(SetDefaultBounds(t), lp) <==> Finalised(t, lp)
  {
    var d := SetDefaultBounds(t);
    forall col ensures BoundOf(d, col) == BoundOf(t, col) {
    }
    assert IsBoundVectors(d, lp.lb, lp.ub) <==> IsBoundVectors(t, lp.lb, lp.ub);
    assert forall kind :: Indices(d, kind) == Indices(t, kind);
    assert IsObjectiveVector(d, lp.c) <==> IsObjectiveVector(t, lp.c);
    BlockIgnoresBounds(t, d, RowsOf(t, 'E'), |RowsOf(t, 'E')|, lp.aEq, lp.bEq);
    BlockIgnoresBounds(t, d, RowsOf(t, 'L') + RowsOf(t, 'G'), |RowsOf(t, 'L')|, lp.aIneq, lp.bIneq);
  }
}
