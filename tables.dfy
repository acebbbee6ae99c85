/**
 * The accumulated parser state as a value (the fields of `ParserState`,
 * src/mps_parser.h:50-57, plus the `col_name_to_index_` map that
 * src/mps_parser.cpp:25-28 uses) and the state changes of its mutators
 * (src/mps_parser.cpp:15-73) as functions on it. The class in
 * parser_state.dfy is proved to follow these functions.
 */
module Tables {
  import opened LpRecord

  datatype Tables = Tables(
    rowNames: seq<string>,                         // every ROWS line's name, in order
    colNames: seq<string>,                         // column names, first-seen order
    objectiveName: string,
    constraints: map<string, map<string, real>>,  // row -> (col -> value)
    objective: map<string, real>,                  // col -> value
    rhsValues: map<string, real>,                  // row -> value
    bounds: map<string, Bound>,                    // col -> (lower, upper)
    rowTypes: map<string, char>,                   // row -> type
    colIndex: map<string, nat>)                    // col -> index in colNames

  /** A freshly constructed `ParserState`: everything empty, objective name "". */
  const Empty := Tables([], [], "", map[], map[], map[], map[], map[], map[])

  /**
   * What the mutators keep true: `colIndex` and `colNames` are inverse to
   * each other (so indices are exactly 0..n-1 and the names are distinct),
   * every recorded row has a type and every typed name is a recorded row,
   * and every coefficient names a registered column.
   */
  ghost predicate WellFormed(t: Tables) {
    && (forall i | 0 <= i < |t.colNames| :: t.colNames[i] in t.colIndex && t.colIndex[t.colNames[i]] == i)
    && (forall col | col in t.colIndex :: t.colIndex[col] < |t.colNames| && t.colNames[t.colIndex[col]] == col)
    && RowsTyped(t)
    && (forall row | row in t.rowTypes :: row in t.rowNames)
    && t.objective.Keys <= t.colIndex.Keys
    && (forall row | row in t.constraints :: t.constraints[row].Keys <= t.colIndex.Keys)
  }

  /** Every recorded row has a type, so `row_types_.at(row)` cannot throw. */
  ghost predicate RowsTyped(t: Tables) {
    forall i | 0 <= i < |t.rowNames| :: t.rowNames[i] in t.rowTypes
  }

  lemma EmptyIsWellFormed()
    ensures WellFormed(Empty)
  {
  }

  /** `add_row` (src/mps_parser.cpp:15-21). */
  function AddRow(t: Tables, name: string, rowType: char): Tables
  {
    t.(rowNames := t.rowNames + [name],
       rowTypes := t.rowTypes[name := rowType],
       objectiveName := if rowType == 'N' then name else t.objectiveName)
  }

  /** `constraints_[row]` as `operator[]` sees it: an empty map when absent. */
  function RowEntries(t: Tables, row: string): map<string, real> {
    if row in t.constraints then t.constraints[row] else map[]
  }

  /** The column registration at the start of `add_column_coefficient`. */
  function RegisterColumn(t: Tables, col: string): (r: Tables)
    ensures col in r.colIndex
  {
    if col in t.colIndex then t
    else t.(colNames := t.colNames + [col], colIndex := t.colIndex[col := |t.colNames|])
  }

  /** The store at the end of `add_column_coefficient`: objective row or constraint row. */
  function StoreCoefficient(t: Tables, col: string, row: string, value: real): Tables {
    if row == t.objectiveName then t.(objective := t.objective[col := value])
    else t.(constraints := t.constraints[row := RowEntries(t, row)[col := value]])
  }

  /** `add_column_coefficient` (src/mps_parser.cpp:23-36). */
  function AddColumnCoefficient(t: Tables, col: string, row: string, value: real): Tables {
    StoreCoefficient(RegisterColumn(t, col), col, row, value)
  }

  /** `add_rhs_value` (src/mps_parser.cpp:38-40). */
  function AddRhsValue(t: Tables, row: string, value: real): Tables
  {
    t.(rhsValues := t.rhsValues[row := value])
  }

  /** `set_objective_name` (src/mps_parser.h:37). */
  function SetObjectiveName(t: Tables, name: string): Tables
  {
    t.(objectiveName := name)
  }

  /** The bound-type codes of src/mps_parser.cpp:48-64 applied to one pair; other codes change nothing. */
  function ApplyBound(b: Bound, code: string, value: real): Bound {
    if code == "LO" then b.(lower := Fin(value))
    else if code == "UP" then b.(upper := Fin(value))
    else if code == "FX" then Bound(Fin(value), Fin(value))
    else if code == "FR" then Bound(NegInf, PosInf)
    else if code == "MI" then b.(lower := NegInf)
    else if code == "PL" then b.(upper := PosInf)
    else if code == "BV" then Bound(Fin(0.0), Fin(1.0))
    else b
  }

  /** `bounds_[col]` after the lazy initialisation of src/mps_parser.cpp:43-45. */
  function BoundOf(t: Tables, col: string): Bound {
    if col in t.bounds then t.bounds[col] else DefaultBound
  }

  /** `add_bound` (src/mps_parser.cpp:42-65). */
  function AddBound(t: Tables, code: string, col: string, value: real): Tables
  {
    t.(bounds := t.bounds[col := ApplyBound(BoundOf(t, col), code, value)])
  }

  /**
   * The loop of `set_default_bounds` over the first |cols| column names
   * (src/mps_parser.cpp:68-72): a column without an entry gets [0, +inf).
   */
  function WithDefaults(b: map<string, Bound>, cols: seq<string>): (r: map<string, Bound>)
    ensures forall k | 0 <= k < |cols| :: cols[k] in r
    ensures forall col | col in r :: col in b || col in cols
    ensures forall col | col in b :: col in r && r[col] == b[col]
    ensures forall col | col in r && col !in b :: r[col] == DefaultBound
  {
    if cols == [] then b
    else
      var r := WithDefaults(b, cols[..|cols| - 1]);
      var col := cols[|cols| - 1];
      if col in r then r else r[col := DefaultBound]
  }

  /** `set_default_bounds` (src/mps_parser.cpp:67-73). */
  function SetDefaultBounds(t: Tables): (r: Tables)
    ensures r == t.(bounds := r.bounds)
    ensures forall i | 0 <= i < |t.colNames| :: t.colNames[i] in r.bounds
    ensures forall col | col in r.bounds :: col in t.bounds || col in t.colNames
    ensures forall col | col in r.bounds :: r.bounds[col] == BoundOf(t, col)
  {
    t.(bounds := WithDefaults(t.bounds, t.colNames))
  }

  // ------------------------------------------------- invariant preserved

  lemma AddRowKeepsWellFormed(t: Tables, name: string, rowType: char)
    requires WellFormed(t)
    ensures WellFormed(AddRow(t, name, rowType))
  {
  }

  lemma RegisterColumnKeepsWellFormed(t: Tables, col: string)
    requires WellFormed(t)
    ensures WellFormed(RegisterColumn(t, col))
  {
  }

  lemma StoreCoefficientKeepsWellFormed(t: Tables, col: string, row: string, value: real)
    requires WellFormed(t)
    requires col in t.colIndex
    ensures WellFormed(StoreCoefficient(t, col, row, value))
  {
    if row != t.objectiveName {
      var m := RowEntries(t, row)[col := value];
      assert m.Keys <= t.colIndex.Keys;
    }
  }

  lemma AddColumnCoefficientKeepsWellFormed(t: Tables, col: string, row: string, value: real)
    requires WellFormed(t)
    ensures WellFormed(AddColumnCoefficient(t, col, row, value))
  {
    RegisterColumnKeepsWellFormed(t, col);
    StoreCoefficientKeepsWellFormed(RegisterColumn(t, col), col, row, value);
  }

  lemma AddRhsValueKeepsWellFormed(t: Tables, row: string, value: real)
    requires WellFormed(t)
    ensures WellFormed(AddRhsValue(t, row, value))
  {
  }

  lemma AddBoundKeepsWellFormed(t: Tables, code: string, col: string, value: real)
    requires WellFormed(t)
    ensures WellFormed(AddBound(t, code, col, value))
  {
  }

  lemma SetObjectiveNameKeepsWellFormed(t: Tables, name: string)
    requires WellFormed(t)
    ensures WellFormed(SetObjectiveName(t, name))
  {
  }

  lemma SetDefaultBoundsKeepsWellFormed(t: Tables)
    requires WellFormed(t)
    ensures WellFormed(SetDefaultBounds(t))
  {
  }

  // ---------------------------------------------------------------- rows

  /** Several `add_row` calls in order. */
  function AddRows(t: Tables, rows: seq<(string, char)>): Tables {
    if rows == [] then t else AddRow(AddRows(t, rows[..|rows| - 1]), rows[|rows| - 1].0, rows[|rows| - 1].1)
  }

  /** After a run of ROWS lines, `row_names_` holds every name in order, duplicates included. */
  lemma {:induction false} AddRowsNames(t: Tables, rows: seq<(string, char)>)
    ensures var r := AddRows(t, rows);
      && |r.rowNames| == |t.rowNames| + |rows|
      && r.rowNames[..|t.rowNames|] == t.rowNames
      && (forall k | 0 <= k < |rows| :: r.rowNames[|t.rowNames| + k] == rows[k].0)
  {
    if rows != [] {
      var init := rows[..|rows| - 1];
      AddRowsNames(t, init);
      assert forall k | 0 <= k < |init| :: init[k] == rows[k];
    }
  }

  /** Each name's type is the one given by its last row. */
  lemma {:induction false} AddRowsTypes(t: Tables, rows: seq<(string, char)>)
    ensures var r := AddRows(t, rows);
      forall k | 0 <= k < |rows| && (forall m | k < m < |rows| :: rows[m].0 != rows[k].0) ::
        rows[k].0 in r.rowTypes && r.rowTypes[rows[k].0] == rows[k].1
  {
    if rows != [] {
      var init := rows[..|rows| - 1];
      AddRowsTypes(t, init);
      assert forall k | 0 <= k < |init| :: init[k] == rows[k];
    }
  }

  /** The objective is the last `N` row, unchanged when there is none. */
  lemma {:induction false} AddRowsObjective(t: Tables, rows: seq<(string, char)>)
    ensures var r := AddRows(t, rows);
      && ((forall k | 0 <= k < |rows| :: rows[k].1 != 'N') ==> r.objectiveName == t.objectiveName)
      && (forall k | 0 <= k < |rows| && rows[k].1 == 'N' && (forall m | k < m < |rows| :: rows[m].1 != 'N') ::
            r.objectiveName == rows[k].0)
  {
    if rows != [] {
      var init := rows[..|rows| - 1];
      AddRowsObjective(t, init);
      assert forall k | 0 <= k < |init| :: init[k] == rows[k];
    }
  }

  // ------------------------------------------------------------- columns

  /** In a well-formed state the column names are distinct and are exactly the indexed names. */
  lemma ColumnNamesDistinct(t: Tables)
    requires WellFormed(t)
    ensures forall i, j | 0 <= i < j < |t.colNames| :: t.colNames[i] != t.colNames[j]
    ensures forall col :: col in t.colIndex <==> col in t.colNames
    ensures |t.colIndex| == |t.colNames|
  {
    var names := set i | 0 <= i < |t.colNames| :: t.colNames[i];
    assert t.colIndex.Keys == names;
    IndexSetSize(t.colNames);
  }

  /** A sequence without repetitions has as many distinct elements as positions. */
  lemma {:induction false} IndexSetSize(s: seq<string>)
    requires forall i, j | 0 <= i < j < |s| :: s[i] != s[j]
    ensures |set i | 0 <= i < |s| :: s[i]| == |s|
  {
    if s != [] {
      var init := s[..|s| - 1];
      IndexSetSize(init);
      var a := set i | 0 <= i < |init| :: init[i];
      var b := set i | 0 <= i < |s| :: s[i];
      assert b == a + {s[|s| - 1]};
      assert s[|s| - 1] !in a;
    }
  }

  /**
   * A coefficient registers an unseen column with the next index (the
   * current column count) and leaves a seen column's index alone.
   */
  lemma ColumnRegistration(t: Tables, col: string, row: string, value: real)
    ensures var r := AddColumnCoefficient(t, col, row, value);
      && r.colNames == (if col in t.colIndex then t.colNames else t.colNames + [col])
      && col in r.colIndex
      && r.colIndex[col] == (if col in t.colIndex then t.colIndex[col] else |t.colNames|)
      && (forall other | other in t.colIndex :: other in r.colIndex && r.colIndex[other] == t.colIndex[other])
  {
    var t1 := RegisterColumn(t, col);
    assert AddColumnCoefficient(t, col, row, value).colNames == t1.colNames;
    assert AddColumnCoefficient(t, col, row, value).colIndex == t1.colIndex;
  }

  /**
   * The value goes to `objective_[col]` exactly when the row is the
   * current objective row, and to `constraints_[row][col]` otherwise,
   * replacing what was there; nothing else changes.
   */
  lemma CoefficientDestination(t: Tables, col: string, row: string, value: real)
    ensures var r := AddColumnCoefficient(t, col, row, value);
      && r.objectiveName == t.objectiveName
      && r.rowNames == t.rowNames && r.rowTypes == t.rowTypes
      && r.rhsValues == t.rhsValues && r.bounds == t.bounds
      && (row == t.objectiveName ==> r.objective == t.objective[col := value] && r.constraints == t.constraints)
      && (row != t.objectiveName ==>
            && r.objective == t.objective
            && r.constraints == t.constraints[row := RowEntries(t, row)[col := value]])
  {
    var t1 := RegisterColumn(t, col);
    assert t1.objectiveName == t.objectiveName && t1.objective == t.objective && t1.constraints == t.constraints;
    assert RowEntries(t1, row) == RowEntries(t, row);
  }

  lemma StoreKeepsColumns(t: Tables, col: string, row: string, value: real)
    ensures StoreCoefficient(t, col, row, value).colIndex == t.colIndex
    ensures StoreCoefficient(t, col, row, value).colNames == t.colNames
  {
  }

  /** Storing twice into the same (row, column) cell keeps the second value. */
  lemma StoreLastWins(t: Tables, col: string, row: string, v1: real, v2: real)
    ensures StoreCoefficient(StoreCoefficient(t, col, row, v1), col, row, v2) == StoreCoefficient(t, col, row, v2)
  {
    if row == t.objectiveName {
      assert t.objective[col := v1][col := v2] == t.objective[col := v2];
    } else {
      var m := RowEntries(t, row);
      assert RowEntries(StoreCoefficient(t, col, row, v1), row) == m[col := v1];
      assert m[col := v1][col := v2] == m[col := v2];
    }
  }

  /** Re-specifying a (row, column) coefficient keeps only the last value; values are never summed. */
  lemma CoefficientLastWins(t: Tables, col: string, row: string, v1: real, v2: real)
    ensures AddColumnCoefficient(AddColumnCoefficient(t, col, row, v1), col, row, v2)
         == AddColumnCoefficient(t, col, row, v2)
  {
    var t1 := RegisterColumn(t, col);
    var a := StoreCoefficient(t1, col, row, v1);
    assert col in a.colIndex by {
      StoreKeepsColumns(t1, col, row, v1);
    }
    StoreLastWins(t1, col, row, v1, v2);
  }

  /** Re-specifying a row's right-hand side keeps only the last value. */
  lemma RhsLastWins(t: Tables, row: string, v1: real, v2: real)
    ensures AddRhsValue(AddRhsValue(t, row, v1), row, v2) == AddRhsValue(t, row, v2)
  {
  }

  // -------------------------------------------------------------- bounds

  /**
   * `add_bound` touches one column: an unseen column starts from [0, +inf),
   * and the code is applied to that pair; all other columns keep theirs.
   */
  lemma AddBoundEffect(t: Tables, code: string, col: string, value: real)
    ensures var r := AddBound(t, code, col, value);
      && r.bounds.Keys == t.bounds.Keys + {col}
      && (col !in t.bounds ==> r.bounds[col] == ApplyBound(DefaultBound, code, value))
      && (forall other | other in t.bounds && other != col :: r.bounds[other] == t.bounds[other])
      && r == t.(bounds := r.bounds)
  {
  }

  /** Each code sets exactly the sides the MPS bound table gives it and keeps the other. */
  lemma BoundCodes(b: Bound, value: real)
    ensures ApplyBound(b, "LO", value) == Bound(Fin(value), b.upper)
    ensures ApplyBound(b, "UP", value) == Bound(b.lower, Fin(value))
    ensures ApplyBound(b, "FX", value) == Bound(Fin(value), Fin(value))
    ensures ApplyBound(b, "FR", value) == Bound(NegInf, PosInf)
    ensures ApplyBound(b, "MI", value) == Bound(NegInf, b.upper)
    ensures ApplyBound(b, "PL", value) == Bound(b.lower, PosInf)
    ensures ApplyBound(b, "BV", value) == Bound(Fin(0.0), Fin(1.0))
    ensures forall code | code !in {"LO", "UP", "FX", "FR", "MI", "PL", "BV"} :: ApplyBound(b, code, value) == b
  {
  }

  /** Directives compose: MI then UP v on a fresh column gives (-inf, v); FX v gives (v, v) whatever came before. */
  lemma BoundComposition(t: Tables, col: string, v: real, w: real)
    requires col !in t.bounds
    ensures AddBound(AddBound(t, "MI", col, w), "UP", col, v).bounds[col] == Bound(NegInf, Fin(v))
    ensures AddBound(t, "FX", col, v).bounds[col] == Bound(Fin(v), Fin(v))
    ensures AddBound(AddBound(t, "UP", col, v), "MI", col, w).bounds[col] == Bound(NegInf, Fin(v))
  {
  }

  /** An unsupported code still creates the default entry for an unseen column, and changes nothing else. */
  lemma UnknownBoundCode(t: Tables, code: string, col: string, value: real)
    requires code !in {"LO", "UP", "FX", "FR", "MI", "PL", "BV"}
    ensures AddBound(t, code, col, value).bounds == t.bounds[col := BoundOf(t, col)]
  {
  }

  /** Applying the same directive twice is the same as applying it once. */
  lemma BoundIdempotent(b: Bound, code: string, value: real)
    ensures ApplyBound(ApplyBound(b, code, value), code, value) == ApplyBound(b, code, value)
  {
  }
}
