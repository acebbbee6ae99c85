/**
 * The four section handlers of src/mps_parser.cpp:195-244. Each line of
 * a section is read with `std::istringstream` extraction (module
 * Streams); the handlers' effect on the parser state is specified as a
 * function from the state before the line to the state after it (or to
 * the error the handler throws), and the handler methods, which run
 * the extraction loops on a `ParserState` in place, are proved to follow
 * those functions.
 */
module Sections {
  import opened Wrappers
  import opened Streams
  import opened Text
  import T = Tables
  import P = ParserStates
  import LpRecord

  /** A non-empty run of white space, as between two fields of a line. */
  predicate Gap(g: string) {
    |g| > 0 && Blank(g)
  }

  // ------------------------------------------------------ specifications

  /** ROWS (src/mps_parser.cpp:195-205): `type_str` then `name`; a type of any length but 1 is an error. */
  function RowsLine(t: T.Tables, line: string): Result<T.Tables> {
    var (typeStr, s) := WordOrEmpty(line);
    var (name, _) := WordOrEmpty(s);
    if |typeStr| != 1 then Err("Invalid row type: " + typeStr)
    else Ok(T.AddRow(t, name, typeStr[0]))
  }

  /** `while (iss >> row_name >> value) add_column_coefficient(col, row_name, value)`. */
  function ColumnsPairs(t: T.Tables, col: string, s: string): T.Tables
    decreases |s|
  {
    match ReadWord(s)
    case None => t
    case Some((row, s1)) =>
      match ReadNumber(s1)
      case None => t
      case Some((value, s2)) => ColumnsPairs(T.AddColumnCoefficient(t, col, row, value), col, s2)
  }

  /** COLUMNS (src/mps_parser.cpp:207-219): a first word equal to 'MARKER' (quotes included) skips the line. */
  function ColumnsLine(t: T.Tables, line: string): T.Tables {
    var (col, s) := WordOrEmpty(line);
    if col == "'MARKER'" then t else ColumnsPairs(t, col, s)
  }

  /** `while (iss >> row_name >> value) add_rhs_value(row_name, value)`. */
  function RhsPairs(t: T.Tables, s: string): T.Tables
    decreases |s|
  {
    match ReadWord(s)
    case None => t
    case Some((row, s1)) =>
      match ReadNumber(s1)
      case None => t
      case Some((value, s2)) => RhsPairs(T.AddRhsValue(t, row, value), s2)
  }

  /** RHS (src/mps_parser.cpp:221-231): the first word (the RHS vector's name) is skipped. */
  function RhsLine(t: T.Tables, line: string): T.Tables {
    RhsPairs(t, WordOrEmpty(line).1)
  }

  /** The codes after which `parse_bounds_section` reads no value. */
  predicate TakesNoValue(code: string) {
    code == "FR" || code == "MI" || code == "PL"
  }

  /** The value `parse_bounds_section` passes on: 0.0 unless a value is read and extracted. */
  function BoundValue(code: string, s: string): real {
    if TakesNoValue(code) then 0.0
    else match ReadNumber(s)
      case None => 0.0
      case Some((value, _)) => value
  }

  /** BOUNDS (src/mps_parser.cpp:233-244): code, bound vector name, column, then perhaps a value. */
  function BoundsLine(t: T.Tables, line: string): T.Tables {
    var (code, s1) := WordOrEmpty(line);
    var (_, s2) := WordOrEmpty(s1);
    var (col, s3) := WordOrEmpty(s2);
    T.AddBound(t, code, col, BoundValue(code, s3))
  }

  /** The dispatch of src/mps_parser.cpp:296-305: a data line in any other section changes nothing. */
  function HandleLine(section: string, line: string, t: T.Tables): Result<T.Tables> {
    if section == "ROWS" then RowsLine(t, line)
    else if section == "COLUMNS" then Ok(ColumnsLine(t, line))
    else if section == "RHS" then Ok(RhsLine(t, line))
    else if section == "BOUNDS" then Ok(BoundsLine(t, line))
    else Ok(t)
  }

  // ------------------------------------------------------------ handlers

  /** `parse_rows_section`: adds the row, or reports the error and changes nothing. */
  method ParseRowsSection(line: string, state: P.ParserState) returns (r: Outcome)
    modifies state
    ensures r.Pass? <==> RowsLine(old(state.Snapshot()), line).Ok?
    ensures r.Pass? ==> state.Snapshot() == RowsLine(old(state.Snapshot()), line).value
    ensures r.Fail? ==> r.error == RowsLine(old(state.Snapshot()), line).error
    ensures r.Fail? ==> state.Snapshot() == old(state.Snapshot())
  {
    var (typeStr, s) := WordOrEmpty(line);
    var (name, _) := WordOrEmpty(s);
    if |typeStr| != 1 {
      return Fail("Invalid row type: " + typeStr);
    }
    state.AddRow(name, typeStr[0]);
    return Pass;
  }

  /** `parse_columns_section`. */
  method ParseColumnsSection(line: string, state: P.ParserState)
    modifies state
    ensures state.Snapshot() == ColumnsLine(old(state.Snapshot()), line)
  {
    var (col, s) := WordOrEmpty(line);
    if col == "'MARKER'" {
      return;
    }
    var row := ReadWord(s);
    var value := if row.Some? then ReadNumber(row.value.1) else None;
    while value.Some?
      invariant row == ReadWord(s)
      invariant value == if row.Some? then ReadNumber(row.value.1) else None
      invariant ColumnsPairs(state.Snapshot(), col, s) == ColumnsLine(old(state.Snapshot()), line)
      decreases |s|
    {
      state.AddColumnCoefficient(col, row.value.0, value.value.0);
      s := value.value.1;
      row := ReadWord(s);
      value := if row.Some? then ReadNumber(row.value.1) else None;
    }
  }

  /** `parse_rhs_section`. */
  method ParseRhsSection(line: string, state: P.ParserState)
    modifies state
    ensures state.Snapshot() == RhsLine(old(state.Snapshot()), line)
  {
    var (_, s) := WordOrEmpty(line);
    var row := ReadWord(s);
    var value := if row.Some? then ReadNumber(row.value.1) else None;
    while value.Some?
      invariant row == ReadWord(s)
      invariant value == if row.Some? then ReadNumber(row.value.1) else None
      invariant RhsPairs(state.Snapshot(), s) == RhsLine(old(state.Snapshot()), line)
      decreases |s|
    {
      state.AddRhsValue(row.value.0, value.value.0);
      s := value.value.1;
      row := ReadWord(s);
      value := if row.Some? then ReadNumber(row.value.1) else None;
    }
  }

  /** `parse_bounds_section`. */
  method ParseBoundsSection(line: string, state: P.ParserState)
    modifies state
    ensures state.Snapshot() == BoundsLine(old(state.Snapshot()), line)
  {
    var (code, s1) := WordOrEmpty(line);
    var (_, s2) := WordOrEmpty(s1);
    var (col, s3) := WordOrEmpty(s2);
    var value := ExtractedValue(code, s3);
    state.AddBound(code, col, value);
  }

  /** `double value = 0.0; if (...) iss >> value;` */
  method ExtractedValue(code: string, s: string) returns (value: real)
    ensures value == BoundValue(code, s)
  {
    value := 0.0;
    if !TakesNoValue(code) {
      var read := ReadNumber(s);
      if read.Some? {
        value := read.value.0;
      }
    }
  }

  /** The dispatch on the current section. */
  method HandleSectionLine(section: string, line: string, state: P.ParserState) returns (r: Outcome)
    modifies state
    ensures r.Pass? <==> HandleLine(section, line, old(state.Snapshot())).Ok?
    ensures r.Pass? ==> state.Snapshot() == HandleLine(section, line, old(state.Snapshot())).value
    ensures r.Fail? ==> r.error == HandleLine(section, line, old(state.Snapshot())).error
  {
    r := Pass;
    if section == "ROWS" {
      r := ParseRowsSection(line, state);
    } else if section == "COLUMNS" {
      ParseColumnsSection(line, state);
    } else if section == "RHS" {
      ParseRhsSection(line, state);
    } else if section == "BOUNDS" {
      ParseBoundsSection(line, state);
    }
  }

  // ------------------------------------------------- reading a line back

  /** Nothing but white space: both extractions fail. */
  lemma ReadBlank(pad: string)
    requires Blank(pad)
    ensures ReadWord(pad) == None && ReadNumber(pad) == None
  {
    SkipSpacesStops(pad, 0, |pad|);
    DigitsEndOver(pad, |pad|, 0);
  }

  /** `pad + w + (g + rest)` is the same string as `pad + w + g + rest`, and it is still separated. */
  lemma Shift(pad: string, w: string, g: string, rest: string)
    requires Gap(g)
    ensures pad + w + g + rest == pad + w + (g + rest)
    ensures Separated(g + rest)
  {
    assert (g + rest)[0] == g[0];
  }

  lemma Regroup5(a: string, b: string, c: string, d: string, e: string)
    ensures a + b + c + d + e == a + b + (c + d + e)
  {
  }

  /** One turn of the COLUMNS loop, read off the two extractions. */
  lemma ColumnsPairsStep(t: T.Tables, col: string, s: string, row: string, s1: string, value: real, s2: string)
    requires ReadWord(s) == Some((row, s1)) && ReadNumber(s1) == Some((value, s2))
    ensures ColumnsPairs(t, col, s) == ColumnsPairs(T.AddColumnCoefficient(t, col, row, value), col, s2)
  {
  }

  /** One turn of the RHS loop. */
  lemma RhsPairsStep(t: T.Tables, s: string, row: string, s1: string, value: real, s2: string)
    requires ReadWord(s) == Some((row, s1)) && ReadNumber(s1) == Some((value, s2))
    ensures RhsPairs(t, s) == RhsPairs(T.AddRhsValue(t, row, value), s2)
  {
  }

  /** A `row value` pair written out: both extractions succeed and the stream moves past it. */
  lemma PairRendered(g1: string, row: string, g2: string, v: int, rest: string)
    requires Blank(g1) && Word(row) && Gap(g2) && Separated(rest)
    ensures ReadWord(g1 + row + g2 + IntText(v) + rest) == Some((row, g2 + IntText(v) + rest))
    ensures ReadNumber(g2 + IntText(v) + rest) == Some((v as real, rest))
  {
    var y := g2 + IntText(v) + rest;
    Regroup5(g1, row, g2, IntText(v), rest);
    assert y[0] == g2[0];
    ReadWordRendered(g1, row, y);
    ReadNumberRendered(g2, v, rest);
  }

  /** One `row value` pair written out: the loop adds it and goes on after it. */
  lemma ColumnsPairRendered(t: T.Tables, col: string, g1: string, row: string, g2: string, v: int, rest: string)
    requires Blank(g1) && Word(row) && Gap(g2) && Separated(rest)
    ensures ColumnsPairs(t, col, g1 + row + g2 + IntText(v) + rest)
         == ColumnsPairs(T.AddColumnCoefficient(t, col, row, v as real), col, rest)
  {
    PairRendered(g1, row, g2, v, rest);
    ColumnsPairsStep(t, col, g1 + row + g2 + IntText(v) + rest, row, g2 + IntText(v) + rest, v as real, rest);
  }

  /** The same for the RHS loop. */
  lemma RhsPairRendered(t: T.Tables, g1: string, row: string, g2: string, v: int, rest: string)
    requires Blank(g1) && Word(row) && Gap(g2) && Separated(rest)
    ensures RhsPairs(t, g1 + row + g2 + IntText(v) + rest) == RhsPairs(T.AddRhsValue(t, row, v as real), rest)
  {
    PairRendered(g1, row, g2, v, rest);
    RhsPairsStep(t, g1 + row + g2 + IntText(v) + rest, row, g2 + IntText(v) + rest, v as real, rest);
  }

  /** A row name followed by something that is not a number ends the loop, adding nothing. */
  lemma ColumnsPairsStopAtNonNumber(t: T.Tables, col: string, g1: string, row: string, g2: string, bad: string)
    requires Blank(g1) && Word(row) && Gap(g2) && bad != []
    requires !IsSpace(bad[0]) && !IsDigit(bad[0]) && bad[0] !in "+-."
    ensures ColumnsPairs(t, col, g1 + row + g2 + bad) == t
  {
    Shift(g1, row, g2, bad);
    ReadWordRendered(g1, row, g2 + bad);
    ReadNumberRejects(g2, bad);
  }

  /** A row name with no value after it (an odd token at the end of the line) is ignored. */
  lemma ColumnsPairsIgnoreOddToken(t: T.Tables, col: string, g1: string, row: string, tail: string)
    requires Blank(g1) && Word(row) && Blank(tail)
    ensures ColumnsPairs(t, col, g1 + row + tail) == t
  {
    assert Separated(tail) by {
      if tail != [] {
        assert IsSpace(tail[0]);
      }
    }
    ReadWordRendered(g1, row, tail);
    ReadBlank(tail);
  }

  /** The common two-pair COLUMNS line adds both coefficients, in order. */
  lemma ColumnsLineTwoPairs(t: T.Tables, col: string, r1: string, v1: int, r2: string, v2: int)
    requires Word(col) && col != "'MARKER'" && Word(r1) && Word(r2)
    ensures ColumnsLine(t, col + " " + r1 + " " + IntText(v1) + " " + r2 + " " + IntText(v2))
         == T.AddColumnCoefficient(T.AddColumnCoefficient(t, col, r1, v1 as real), col, r2, v2 as real)
  {
    var n1, n2 := IntText(v1), IntText(v2);
    var pair2 := " " + r2 + " " + n2;
    var rest := " " + r1 + " " + n1 + pair2;
    TwoPairsLayout(col, r1, n1, r2, n2);
    ReadWordRendered("", col, rest);
    ColumnsPairRendered(t, col, " ", r1, " ", v1, pair2);
    ColumnsPairRendered(T.AddColumnCoefficient(t, col, r1, v1 as real), col, " ", r2, " ", v2, "");
    ReadBlank("");
  }

  lemma TwoPairsLayout(col: string, r1: string, n1: string, r2: string, n2: string)
    ensures col + " " + r1 + " " + n1 + " " + r2 + " " + n2 == "" + col + (" " + r1 + " " + n1 + (" " + r2 + " " + n2))
    ensures " " + r2 + " " + n2 == " " + r2 + " " + n2 + ""
  {
  }

  /** A line whose first word is 'MARKER' (quotes included) changes nothing. */
  lemma QuotedMarkerLineSkipped(t: T.Tables, pad: string, rest: string)
    requires Blank(pad) && Separated(rest)
    ensures ColumnsLine(t, pad + "'MARKER'" + rest) == t
  {
    ReadWordRendered(pad, "'MARKER'", rest);
  }

  /**
   * A standard integrality marker `name 'MARKER' 'INTORG'` has 'MARKER' as
   * its second word, so the skip does not fire; but the quoted third word
   * is not a number, so the loop still stops before adding anything.
   */
  lemma IntegralityMarkerChangesNothing(t: T.Tables, name: string, kind: string)
    requires Word(name) && Word(kind) && kind[0] == '\''
    ensures ColumnsLine(t, name + " 'MARKER' " + kind) == t
  {
    var rest := " " + "'MARKER'" + " " + kind;
    assert name + " 'MARKER' " + kind == "" + name + rest;
    Shift("", name, " ", "'MARKER'" + " " + kind);
    ReadWordRendered("", name, rest);
    ColumnsPairsStopAtNonNumber(t, name, " ", "'MARKER'", " ", kind);
  }

  /** A ROWS line `type name`: a one-character type adds the row, any other type is the error. */
  lemma RowsLineRendered(t: T.Tables, pad: string, rowType: string, g: string, name: string, rest: string)
    requires Blank(pad) && Word(rowType) && Gap(g) && Word(name) && Separated(rest)
    ensures RowsLine(t, pad + rowType + g + name + rest)
         == if |rowType| == 1 then Ok(T.AddRow(t, name, rowType[0])) else Err("Invalid row type: " + rowType)
  {
    var y := g + name + rest;
    Regroup5(pad, rowType, g, name, rest);
    assert y[0] == g[0];
    ReadWordRendered(pad, rowType, y);
    ReadWordRendered(g, name, rest);
  }

  /** A ROWS line of white space only (a lone carriage return, say) is the error with an empty type. */
  lemma RowsLineBlank(t: T.Tables, line: string)
    requires Blank(line)
    ensures RowsLine(t, line) == Err("Invalid row type: ")
  {
    ReadBlank(line);
  }

  /** A ROWS line with a type and no name adds a row named "". */
  lemma RowsLineWithoutName(t: T.Tables, pad: string, rowType: char, tail: string)
    requires Blank(pad) && !IsSpace(rowType) && Blank(tail)
    ensures RowsLine(t, pad + [rowType] + tail) == Ok(T.AddRow(t, "", rowType))
  {
    assert Separated(tail) by {
      if tail != [] {
        assert IsSpace(tail[0]);
      }
    }
    ReadWordRendered(pad, [rowType], tail);
    ReadBlank(tail);
  }

  /** An RHS line `vector row value` stores the value; the vector name is discarded. */
  lemma RhsLineRendered(t: T.Tables, vector: string, row: string, v: int)
    requires Word(vector) && Word(row)
    ensures RhsLine(t, vector + " " + row + " " + IntText(v)) == T.AddRhsValue(t, row, v as real)
  {
    var rest := " " + row + " " + IntText(v);
    assert vector + " " + row + " " + IntText(v) == "" + vector + rest;
    Shift("", vector, " ", row + " " + IntText(v));
    ReadWordRendered("", vector, rest);
    assert rest == rest + "";
    RhsPairRendered(t, " ", row, " ", v, "");
    ReadBlank("");
  }

  /** The three leading words of a BOUNDS line. */
  lemma BoundsWords(code: string, vector: string, col: string, rest: string)
    requires Word(code) && Word(vector) && Word(col) && Separated(rest)
    ensures var (c, s1) := WordOrEmpty(code + " " + vector + " " + col + rest);
      var (_, s2) := WordOrEmpty(s1);
      var (k, s3) := WordOrEmpty(s2);
      c == code && k == col && s3 == rest
  {
    var third := " " + col + rest;
    var second := " " + vector + third;
    assert code + " " + vector + " " + col + rest == "" + code + second;
    Shift("", code, " ", vector + third);
    ReadWordRendered("", code, second);
    assert second == " " + vector + third;
    Shift("", vector, " ", col + rest);
    ReadWordRendered(" ", vector, third);
    ReadWordRendered(" ", col, rest);
  }

  /** A BOUNDS line `code vector col value` applies the code with that value. */
  lemma BoundsLineRendered(t: T.Tables, code: string, vector: string, col: string, v: int)
    requires Word(code) && Word(vector) && Word(col) && !TakesNoValue(code)
    ensures BoundsLine(t, code + " " + vector + " " + col + " " + IntText(v)) == T.AddBound(t, code, col, v as real)
  {
    var n := IntText(v);
    ValueLayout(code + " " + vector + " " + col, n);
    BoundsWords(code, vector, col, " " + n);
    ReadNumberRendered(" ", v, "");
    assert BoundValue(code, " " + n) == v as real;
  }

  lemma ValueLayout(front: string, n: string)
    ensures front + " " + n == front + (" " + n) && " " + n + "" == " " + n
    ensures Separated(" " + n)
  {
  }

  /** FR, MI and PL read no value: whatever follows the column is ignored. */
  lemma BoundsLineIgnoresValue(t: T.Tables, code: string, vector: string, col: string, rest: string)
    requires Word(code) && Word(vector) && Word(col) && Separated(rest) && TakesNoValue(code)
    ensures BoundsLine(t, code + " " + vector + " " + col + rest) == T.AddBound(t, code, col, 0.0)
  {
    BoundsWords(code, vector, col, rest);
  }

  /** A BOUNDS line that ends at the column passes 0.0, whatever the code. */
  lemma BoundsLineWithoutValue(t: T.Tables, code: string, vector: string, col: string)
    requires Word(code) && Word(vector) && Word(col)
    ensures BoundsLine(t, code + " " + vector + " " + col) == T.AddBound(t, code, col, 0.0)
  {
    assert code + " " + vector + " " + col == code + " " + vector + " " + col + "";
    BoundsWords(code, vector, col, "");
    ReadBlank("");
  }

  // --------------------------------------------------- what a line keeps

  /** The COLUMNS loop touches only the columns, the objective and the constraint rows, and keeps the invariant. */
  lemma {:induction false} ColumnsPairsEffect(t: T.Tables, col: string, s: string)
    requires T.WellFormed(t)
    ensures var r := ColumnsPairs(t, col, s);
      && T.WellFormed(r)
      && r == t.(colNames := r.colNames, colIndex := r.colIndex, objective := r.objective, constraints := r.constraints)
    decreases |s|
  {
    match ReadWord(s)
    case None =>
    case Some((row, s1)) =>
      match ReadNumber(s1)
      case None =>
      case Some((value, s2)) =>
        T.AddColumnCoefficientKeepsWellFormed(t, col, row, value);
        ColumnsPairsEffect(T.AddColumnCoefficient(t, col, row, value), col, s2);
  }

  /** The RHS loop touches only the right-hand sides. */
  lemma {:induction false} RhsPairsEffect(t: T.Tables, s: string)
    ensures var r := RhsPairs(t, s); r == t.(rhsValues := r.rhsValues)
    decreases |s|
  {
    match ReadWord(s)
    case None =>
    case Some((row, s1)) =>
      match ReadNumber(s1)
      case None =>
      case Some((value, s2)) =>
        RhsPairsEffect(T.AddRhsValue(t, row, value), s2);
  }

  /** A ROWS line touches only the row list, the row types and the objective name, and keeps the invariant. */
  lemma RowsLineEffect(t: T.Tables, line: string)
    requires T.WellFormed(t)
    ensures var r := RowsLine(t, line);
      r.Ok? ==> (T.WellFormed(r.value)
        && r.value == t.(rowNames := r.value.rowNames, rowTypes := r.value.rowTypes, objectiveName := r.value.objectiveName))
  {
    var (w, s) := WordOrEmpty(line);
    var (name, _) := WordOrEmpty(s);
    if |w| == 1 {
      T.AddRowKeepsWellFormed(t, name, w[0]);
    }
  }

  /** A COLUMNS line touches only the columns, the objective and the constraint rows, and keeps the invariant. */
  lemma ColumnsLineEffect(t: T.Tables, line: string)
    requires T.WellFormed(t)
    ensures var r := ColumnsLine(t, line);
      && T.WellFormed(r)
      && r == t.(colNames := r.colNames, colIndex := r.colIndex, objective := r.objective, constraints := r.constraints)
  {
    var (w, s) := WordOrEmpty(line);
    if w != "'MARKER'" {
      ColumnsPairsEffect(t, w, s);
    }
  }

  /** A BOUNDS line touches only the bounds, and keeps the invariant. */
  lemma BoundsLineEffect(t: T.Tables, line: string)
    requires T.WellFormed(t)
    ensures var r := BoundsLine(t, line); T.WellFormed(r) && r == t.(bounds := r.bounds)
  {
    var (w, s) := WordOrEmpty(line);
    var (_, s2) := WordOrEmpty(s);
    var (col, s3) := WordOrEmpty(s2);
    T.AddBoundKeepsWellFormed(t, w, col, BoundValue(w, s3));
  }

  /** Whatever the section, a line that does not fail leaves a well-formed state. */
  lemma HandleLineKeepsWellFormed(section: string, line: string, t: T.Tables)
    requires T.WellFormed(t)
    ensures var r := HandleLine(section, line, t); r.Ok? ==> T.WellFormed(r.value)
  {
    if section == "ROWS" {
      RowsLineEffect(t, line);
    } else if section == "COLUMNS" {
      ColumnsLineEffect(t, line);
    } else if section == "RHS" {
      RhsPairsKeepsWellFormed(t, WordOrEmpty(line).1);
    } else if section == "BOUNDS" {
      BoundsLineEffect(t, line);
    }
  }

  lemma {:induction false} RhsPairsKeepsWellFormed(t: T.Tables, s: string)
    requires T.WellFormed(t)
    ensures T.WellFormed(RhsPairs(t, s))
    decreases |s|
  {
    match ReadWord(s)
    case None =>
    case Some((row, s1)) =>
      match ReadNumber(s1)
      case None =>
      case Some((value, s2)) =>
        T.AddRhsValueKeepsWellFormed(t, row, value);
        RhsPairsKeepsWellFormed(T.AddRhsValue(t, row, value), s2);
  }

  /**
   * `UP` with a negative value on a column without a bound entry keeps the
   * default lower bound 0, so the column ends with lower > upper.
   */
  lemma NegativeUpperBoundCrossesDefault(t: T.Tables, vector: string, col: string, v: int)
    requires Word(vector) && Word(col) && col !in t.bounds && v < 0
    ensures var b := BoundsLine(t, "UP" + " " + vector + " " + col + " " + IntText(v)).bounds;
      col in b && b[col] == LpRecord.Bound(LpRecord.Fin(0.0), LpRecord.Fin(v as real))
  {
    assert Word("UP");
    BoundsLineRendered(t, "UP", vector, col, v);
  }
}
