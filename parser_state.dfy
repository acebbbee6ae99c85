/**
 * `ParserState` (src/mps_parser.h:22-58, src/mps_parser.cpp:12-193): the
 * accumulator the section handlers fill in place, and its finalisation
 * into vectors and sparse blocks. Every mutator is proved to change the
 * state exactly as the matching function of module Tables says; every
 * finalisation step is proved to produce what module Assembly specifies.
 */
module ParserStates {
  import opened LpRecord
  import T = Tables
  import A = Assembly

  class ParserState {
    var rowNames: seq<string>
    var colNames: seq<string>
    var objectiveName: string
    var constraints: map<string, map<string, real>>  // row -> (col -> value)
    var objective: map<string, real>                  // col -> value
    var rhsValues: map<string, real>                  // row -> value
    var bounds: map<string, Bound>                    // col -> (lower, upper)
    var rowTypes: map<string, char>                   // row -> type (N, E, L, G)
    var colNameToIndex: map<string, nat>

    /** The state as a value. */
    function Snapshot(): T.Tables
      reads this
    {
      T.Tables(rowNames, colNames, objectiveName, constraints, objective, rhsValues, bounds, rowTypes, colNameToIndex)
    }

    ghost predicate Valid()
      reads this
    {
      T.WellFormed(Snapshot())
    }

    constructor ()
      ensures Valid() && Snapshot() == T.Empty
    {
      rowNames, colNames, objectiveName := [], [], "";
      constraints, objective, rhsValues, bounds, rowTypes, colNameToIndex := map[], map[], map[], map[], map[], map[];
      new;
      T.EmptyIsWellFormed();
    }

    function GetRowNames(): seq<string>
      reads this
    {
      rowNames
    }

    /** `get_col_names`: the column names in index order (distinct, by `Tables.ColumnNamesDistinct`). */
    function GetColNames(): seq<string>
      reads this
    {
      colNames
    }

    function GetObjectiveName(): string
      reads this
    {
      objectiveName
    }

    /** `add_row`. */
    method AddRow(name: string, rowType: char)
      modifies this
      ensures Snapshot() == T.AddRow(old(Snapshot()), name, rowType)
    {
      rowNames := rowNames + [name];
      rowTypes := rowTypes[name := rowType];
      if rowType == 'N' {
        objectiveName := name;
      }
    }

    /** `add_column_coefficient`. */
    method AddColumnCoefficient(col: string, row: string, value: real)
      modifies this
      ensures Snapshot() == T.AddColumnCoefficient(old(Snapshot()), col, row, value)
    {
      if col !in colNameToIndex {
        var newIndex := |colNames|;
        colNames := colNames + [col];
        colNameToIndex := colNameToIndex[col := newIndex];
      }
      if row == objectiveName {
        objective := objective[col := value];
      } else {
        var entries := if row in constraints then constraints[row] else map[];
        constraints := constraints[row := entries[col := value]];
      }
    }

    /** `add_rhs_value`. */
    method AddRhsValue(row: string, value: real)
      modifies this
      ensures Snapshot() == T.AddRhsValue(old(Snapshot()), row, value)
    {
      rhsValues := rhsValues[row := value];
    }

    /** `add_bound`: initialise an unseen column, then apply the code to its pair. */
    method AddBound(code: string, col: string, value: real)
      modifies this
      ensures Snapshot() == T.AddBound(old(Snapshot()), code, col, value)
    {
      if col !in bounds {
        bounds := bounds[col := DefaultBound];
      }
      var b := ApplyCode(bounds[col], code, value);
      if col !in old(bounds) {
        OverwriteTwice(old(bounds), col, DefaultBound, b);
      }
      bounds := bounds[col := b];
    }

    /** `set_objective_name`: replaces the objective row's name and nothing else. */
    method SetObjectiveName(name: string)
      modifies this
      ensures Snapshot() == T.SetObjectiveName(old(Snapshot()), name)
    {
      objectiveName := name;
    }

    /** `set_default_bounds`. */
    method SetDefaultBounds()
      modifies this
      ensures Snapshot() == T.SetDefaultBounds(old(Snapshot()))
    {
      bounds := FillDefaultBounds(bounds, colNames);
    }

    /** `create_bounds`: lb and ub aligned with the column names. */
    method CreateBounds() returns (lb: seq<Ext>, ub: seq<Ext>)
      ensures A.IsBoundVectors(Snapshot(), lb, ub)
    {
      var n := |colNames|;
      lb := seq(n, _ => Fin(0.0));
      ub := seq(n, _ => PosInf);
      for i := 0 to n
        invariant |lb| == n && |ub| == n
        invariant forall k | 0 <= k < i :: lb[k] == T.BoundOf(Snapshot(), colNames[k]).lower
        invariant forall k | 0 <= k < i :: ub[k] == T.BoundOf(Snapshot(), colNames[k]).upper
        invariant forall k | i <= k < n :: lb[k] == Fin(0.0) && ub[k] == PosInf
      {
        var col := colNames[i];
        if col in bounds {
          var b := bounds[col];
          lb := lb[i := b.lower];
          ub := ub[i := b.upper];
        }
      }
    }

    /** The classification loop of `build_matrices`: E, L and G row indices in encounter order. */
    method Classify() returns (eq: seq<nat>, l: seq<nat>, g: seq<nat>)
      requires T.RowsTyped(Snapshot())
      ensures eq == A.Indices(Snapshot(), 'E')
      ensures l == A.Indices(Snapshot(), 'L')
      ensures g == A.Indices(Snapshot(), 'G')
    {
      eq, l, g := [], [], [];
      for i := 0 to |rowNames|
        invariant eq == A.Bucket(rowNames[..i], rowTypes, objectiveName, 'E')
        invariant l == A.Bucket(rowNames[..i], rowTypes, objectiveName, 'L')
        invariant g == A.Bucket(rowNames[..i], rowTypes, objectiveName, 'G')
      {
        A.BucketStep(rowNames, rowTypes, objectiveName, 'E', i);
        A.BucketStep(rowNames, rowTypes, objectiveName, 'L', i);
        A.BucketStep(rowNames, rowTypes, objectiveName, 'G', i);
        var row := rowNames[i];
        if row != objectiveName {
          var rowType := rowTypes[row];
          if rowType == 'E' {
            eq := eq + [i];
          } else if rowType == 'L' {
            l := l + [i];
          } else if rowType == 'G' {
            g := g + [i];
          }
        }
      }
      assert rowNames[..|rowNames|] == rowNames;
    }

    /** The objective-vector loop of `build_matrices`. */
    method ObjectiveVector() returns (c: seq<real>)
      requires Valid()
      ensures A.IsObjectiveVector(Snapshot(), c)
    {
      var n := |colNames|;
      c := seq(n, _ => 0.0);
      var todo := objective.Keys;
      while todo != {}
        invariant todo <= objective.Keys
        invariant |c| == n
        invariant forall i | 0 <= i < n ::
          c[i] == if colNames[i] in objective && colNames[i] !in todo then objective[colNames[i]] else 0.0
        decreases todo
      {
        var col :| col in todo;
        if col in colNameToIndex {
          var idx := colNameToIndex[col];
          c := c[idx := objective[col]];
        }
        todo := todo - {col};
      }
    }

    /**
     * The coefficients of constraint row `row` placed in matrix row `i`
     * (negated when `negate`), as the inner loops of `build_matrices` do.
     */
    method PlaceRow(entries: map<(nat, nat), real>, i: nat, row: string, negate: bool)
      returns (placed: map<(nat, nat), real>)
      requires Valid()
      requires forall a: nat, b: nat | (a, b) in entries :: a < i
      ensures A.RowPlaced(Snapshot(), entries, i, row, negate, placed)
    {
      placed := entries;
      if row in constraints {
        var cells := constraints[row];
        var todo := cells.Keys;
        while todo != {}
          invariant todo <= cells.Keys
          invariant forall a: nat, b: nat :: (a, b) in placed <==>
            (a, b) in entries || (a == i && b < |colNames| && colNames[b] in cells && colNames[b] !in todo)
          invariant forall a: nat, b: nat | (a, b) in placed ::
            placed[(a, b)] == if (a, b) in entries then entries[(a, b)] else A.Signed(negate, cells[colNames[b]])
          decreases todo
        {
          var col :| col in todo;
          if col in colNameToIndex {
            var j := colNameToIndex[col];
            // one value per (row, column): the triplet list never repeats a position
            assert (i, j) !in placed;
            placed := placed[(i, j) := if negate then -cells[col] else cells[col]];
          }
          todo := todo - {col};
        }
      }
    }

    /**
     * The rows at indices `idx`, appended below the `|done|` rows already
     * built, with their right-hand sides (recorded value or 0, negated when
     * `negate`).
     */
    method FillRows(idx: seq<nat>, negate: bool, ghost done: seq<string>, ghost negFrom: nat,
                    entries0: map<(nat, nat), real>, rhs0: seq<real>)
      returns (entries: map<(nat, nat), real>, rhs: seq<real>)
      requires Valid()
      requires forall k | 0 <= k < |idx| :: idx[k] < |rowNames|
      requires negate ==> negFrom <= |done|
      requires !negate ==> |done| + |idx| <= negFrom
      requires A.BlockEntries(Snapshot(), done, negFrom, entries0)
      requires A.BlockRhs(Snapshot(), done, negFrom, rhs0)
      ensures A.BlockEntries(Snapshot(), done + A.Names(rowNames, idx), negFrom, entries)
      ensures A.BlockRhs(Snapshot(), done + A.Names(rowNames, idx), negFrom, rhs)
    {
      entries, rhs := entries0, rhs0;
      ghost var t := Snapshot();
      ghost var rows := done;
      for k := 0 to |idx|
        invariant rows == done + A.Names(rowNames, idx[..k])
        invariant A.BlockEntries(t, rows, negFrom, entries)
        invariant A.BlockRhs(t, rows, negFrom, rhs)
      {
        assert idx[..k + 1][..k] == idx[..k];
        var row := rowNames[idx[k]];
        var i := |rhs|;
        var b := if row in rhsValues then (if negate then -rhsValues[row] else rhsValues[row]) else 0.0;
        assert b == A.Signed(negate, A.RhsOf(t, row));
        ghost var before := entries;
        entries := PlaceRow(entries, i, row, negate);
        A.ExtendBlock(t, rows, negFrom, row, negate, before, entries, rhs);
        rhs := rhs + [b];
        rows := rows + [row];
      }
      assert idx[..|idx|] == idx;
    }

    /** The equality block of `build_matrices` (src/mps_parser.cpp:127-147). */
    method EqualityBlock(eq: seq<nat>) returns (aEq: SparseMatrix, bEq: seq<real>)
      requires Valid()
      requires eq == A.Indices(Snapshot(), 'E')
      ensures A.IsBlock(Snapshot(), A.RowsOf(Snapshot(), 'E'), |A.RowsOf(Snapshot(), 'E')|, aEq, bEq)
    {
      aEq, bEq := EmptyMatrix, [];
      if eq != [] {
        var entries;
        entries, bEq := FillRows(eq, false, [], |eq|, map[], []);
        aEq := SparseMatrix(|eq|, |colNames|, entries);
      }
    }

    /** The inequality block of `build_matrices`: L rows, then G rows negated (src/mps_parser.cpp:149-192). */
    method InequalityBlock(l: seq<nat>, g: seq<nat>) returns (aIneq: SparseMatrix, bIneq: seq<real>)
      requires Valid()
      requires l == A.Indices(Snapshot(), 'L') && g == A.Indices(Snapshot(), 'G')
      ensures A.IsBlock(Snapshot(), A.RowsOf(Snapshot(), 'L') + A.RowsOf(Snapshot(), 'G'),
                        |A.RowsOf(Snapshot(), 'L')|, aIneq, bIneq)
    {
      aIneq, bIneq := EmptyMatrix, [];
      var nIneq := |l| + |g|;
      if nIneq > 0 {
        var entries, rhs := FillRows(l, false, [], |l|, map[], []);
        entries, bIneq := FillRows(g, true, A.Names(rowNames, l), |l|, entries, rhs);
        aIneq := SparseMatrix(nIneq, |colNames|, entries);
      }
    }

    /** `build_matrices`. */
    method BuildMatrices() returns (nVars: nat, c: seq<real>, aEq: SparseMatrix, bEq: seq<real>,
                                    aIneq: SparseMatrix, bIneq: seq<real>)
      requires Valid()
      ensures nVars == |colNames|
      ensures A.IsObjectiveVector(Snapshot(), c)
      ensures A.IsBlock(Snapshot(), A.RowsOf(Snapshot(), 'E'), |A.RowsOf(Snapshot(), 'E')|, aEq, bEq)
      ensures A.IsBlock(Snapshot(), A.RowsOf(Snapshot(), 'L') + A.RowsOf(Snapshot(), 'G'),
                        |A.RowsOf(Snapshot(), 'L')|, aIneq, bIneq)
    {
      var eq, l, g := Classify();
      nVars := |colNames|;
      c := ObjectiveVector();
      aEq, bEq := EqualityBlock(eq);
      aIneq, bIneq := InequalityBlock(l, g);
    }
  }

  /**
   * The loop of `set_default_bounds`: every column of `cols` that has no
   * entry in `b` gets the default bound, the others keep theirs.
   */
  method FillDefaultBounds(b: map<string, Bound>, cols: seq<string>) returns (filled: map<string, Bound>)
    ensures filled == T.WithDefaults(b, cols)
  {
    filled := b;
    for i := 0 to |cols|
      invariant filled == T.WithDefaults(b, cols[..i])
    {
      assert cols[..i + 1][..i] == cols[..i];
      if cols[i] !in filled {
        filled := filled[cols[i] := DefaultBound];
      }
    }
    assert cols[..|cols|] == cols;
  }

  /** Writing a key twice leaves only the second value. */
  lemma OverwriteTwice<K, V>(m: map<K, V>, k: K, first: V, second: V)
    ensures m[k := first][k := second] == m[k := second]
  {
  }

  /** The code dispatch of `add_bound` on one (lower, upper) pair. */
  method ApplyCode(b: Bound, code: string, value: real) returns (r: Bound)
    ensures r == T.ApplyBound(b, code, value)
  {
    r := b;
    if code == "LO" {
      r := r.(lower := Fin(value));
    } else if code == "UP" {
      r := r.(upper := Fin(value));
    } else if code == "FX" {
      r := Bound(Fin(value), Fin(value));
    } else if code == "FR" {
      r := Bound(NegInf, PosInf);
    } else if code == "MI" {
      r := r.(lower := NegInf);
    } else if code == "PL" {
      r := r.(upper := PosInf);
    } else if code == "BV" {
      r := Bound(Fin(0.0), Fin(1.0));
    }
  }
}
