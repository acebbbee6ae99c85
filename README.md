# MPS parser core, modelled in Dafny

This project models the core of a small C++ reader for linear programs in
free-format MPS. The core has three parts:

- `ParserState`. This accumulator holds the rows, the columns with their
  dense indices, the objective row, the coefficients, the right-hand sides
  and the bounds. Its finalisation produces the objective vector, the bound
  vectors and the sparse blocks `A_eq`/`b_eq` and `A_ineq`/`b_ineq`.
- The section handlers. There is one each for ROWS, COLUMNS, RHS and
  BOUNDS. They read tokens and numbers with `std::istringstream`.
- The line loop of `parse_mps` and the helpers `read_problem_name` and
  `count_lines`. The loop trims lines, skips blanks and comments, switches
  sections on exact headers, stops at ENDATA, wraps handler errors with
  the line number and section, and polls a timeout.

Modules:

- `LpRecord` (`lp_data.dfy`) holds the values: `Ext` is a real, -inf or
  +inf; `Bound`; `SparseMatrix` is a shape plus a map from (row, column)
  to value; `LpData` is the finished record.
- `Tables` (`tables.dfy`) holds the parser state as a value. Every mutator
  is a function, with the invariant `WellFormed` it keeps. `WellFormed`
  says the column index and name list are inverse and every row has a type.
- `ParserStates` (`parser_state.dfy`) is the `ParserState` class. Its
  fields are updated in place. Each mutator method is proved to change the
  snapshot exactly as the matching `Tables` function does. The
  finalisation loops are methods proved against module `Assembly`.
- `Assembly` (`assembly.dfy`) specifies the finished record, `Finalised`.
  It proves the row placement, the sign convention and the shapes. It also
  proves that the record is unique.
- `Streams` (`streams.dfy`) models `>> std::string` and `>> double` on a
  line in the C locale. Numbers are exact reals. The grammar is [sign]
  digits [. digits] [e [sign] digits]. A dangling exponent makes the
  extraction fail.
- `Sections` (`sections.dfy`) contains the handlers. Each one is a
  specification function from the state before a line to the state after
  it, or to the error. A handler method, working on a `ParserState`, is
  proved to follow that function.
- `Dispatcher` (`dispatcher.dfy`) holds the line loop as the function
  `ScanFrom` and the method `ParseMps` that runs it on a `ParserState`.
  The file is given as its lines, or `None` when it cannot be opened. The
  clock is given as `elapsed(k)`: the whole seconds that have passed when
  0-based line k is read.
- `Reader` (`reader.dfy`) holds `read_problem_name` and `count_lines`.
- `Text` (`text.dfy`) holds the space/tab trim and `std::to_string`.

## Behaviour worth noting

- An unknown BOUNDS code still creates the default [0, +inf) entry for an
  unseen column (src/mps_parser.cpp:43-45); only then is the code ignored
  (`Tables.UnknownBoundCode`).
- A number that does not read is not an error. `while (iss >> row >> value)`
  (src/mps_parser.cpp:216, 228) just ends at the first pair that does not
  read (`Sections.ColumnsPairsStopAtNonNumber`). The only error a handler
  raises is a ROWS type that is not one character long
  (src/mps_parser.cpp:200-202).
- A ROWS line is read as two tokens (src/mps_parser.cpp:198); any further
  tokens are ignored.
- For BOUNDS, a value that does not read becomes 0.0
  (`Sections.BoundsLineWithoutValue`).
- A block without rows keeps Eigen's default 0 x 0 shape, not 0 x n_vars
  (src/mps_parser.cpp:128, 151).
- `col_name_to_index_` is used by src/mps_parser.cpp:25-29 but is missing
  from the field list in src/mps_parser.h:50-57. The class has it as
  `colNameToIndex`.
- `parse_mps` never removes '\r'. A CRLF file has no recognised header, so
  it parses to the empty state (`Dispatcher.CrlfFileParsesToEmptyState`).
- Nothing checks that lb <= ub. A negative `UP` on a column without an
  earlier bound leaves the default lower bound 0 above it
  (`Sections.NegativeUpperBoundCrossesDefault`).

## Model

| member | source | states |
|---|---|---|
| ParserStates.ParserState.constructor | src/mps_parser.cpp:12 | a new state is empty and satisfies the invariant |
| ParserStates.ParserState.AddRow | src/mps_parser.cpp:15-21 | in place: appends the name, records its type, and makes it the objective when the type is N |
| ParserStates.ParserState.AddColumnCoefficient | src/mps_parser.cpp:23-36 | in place: registers an unseen column with the next index, then stores into the objective or the constraint row |
| ParserStates.ParserState.AddRhsValue | src/mps_parser.cpp:38-40 | in place: sets the row's right-hand side |
| ParserStates.ParserState.AddBound | src/mps_parser.cpp:42-65 | in place: lazily initialises [0, +inf), then applies the code |
| ParserStates.ParserState.SetObjectiveName | src/mps_parser.h:37 | in place: replaces the objective name and nothing else |
| ParserStates.ParserState.SetDefaultBounds | src/mps_parser.cpp:67-73 | in place: every column without a bound gets [0, +inf) |
| ParserStates.FillDefaultBounds | src/mps_parser.cpp:68-72 | the default-bounds loop computes `Tables.WithDefaults` |
| ParserStates.ApplyCode | src/mps_parser.cpp:47-64 | the code dispatch computes `Tables.ApplyBound` |
| ParserStates.ParserState.CreateBounds | src/mps_parser.cpp:75-90 | lb and ub have one entry per column, in index order, equal to its bound or [0, +inf) |
| ParserStates.ParserState.Classify | src/mps_parser.cpp:104-112 | returns the indices of the E, L and G rows other than the objective, in encounter order |
| ParserStates.ParserState.ObjectiveVector | src/mps_parser.cpp:115-125 | c has one entry per column: its objective coefficient, or 0 |
| ParserStates.ParserState.PlaceRow | src/mps_parser.cpp:136-144 | adds exactly the coefficients of one row in matrix row i at column indices, negated when asked; earlier rows are untouched |
| ParserStates.ParserState.FillRows | src/mps_parser.cpp:132-145 | extends a block by the given rows: their entries and their right-hand sides (recorded, or 0) |
| ParserStates.ParserState.EqualityBlock | src/mps_parser.cpp:127-147 | A_eq/b_eq is the block of the E rows, not negated |
| ParserStates.ParserState.InequalityBlock | src/mps_parser.cpp:149-192 | A_ineq/b_ineq is the block of the L rows, then the G rows negated |
| ParserStates.ParserState.BuildMatrices | src/mps_parser.cpp:92-193 | n_vars is the column count; c and both blocks are as `Assembly` specifies |
| Tables.EmptyIsWellFormed | src/mps_parser.cpp:12 | the empty state satisfies the invariant |
| Tables.RegisterColumn | src/mps_parser.cpp:25-29 | afterwards the column is indexed |
| Tables.WithDefaults | src/mps_parser.cpp:68-72 | every listed column gets an entry; existing entries are kept; new ones are [0, +inf); nothing else is added |
| Tables.SetDefaultBounds | src/mps_parser.cpp:67-73 | only the bounds change; each column's entry is its effective bound |
| Tables.AddRowKeepsWellFormed | src/mps_parser.cpp:15-21 | `add_row` keeps the invariant |
| Tables.RegisterColumnKeepsWellFormed | src/mps_parser.cpp:25-29 | column registration keeps indices and names inverse |
| Tables.StoreCoefficientKeepsWellFormed | src/mps_parser.cpp:31-35 | storing a coefficient for an indexed column keeps the invariant |
| Tables.AddColumnCoefficientKeepsWellFormed | src/mps_parser.cpp:23-36 | `add_column_coefficient` keeps the invariant |
| Tables.AddRhsValueKeepsWellFormed | src/mps_parser.cpp:38-40 | `add_rhs_value` keeps the invariant |
| Tables.AddBoundKeepsWellFormed | src/mps_parser.cpp:42-65 | `add_bound` keeps the invariant |
| Tables.SetObjectiveNameKeepsWellFormed | src/mps_parser.h:37 | `set_objective_name` keeps the invariant |
| Tables.SetDefaultBoundsKeepsWellFormed | src/mps_parser.cpp:67-73 | `set_default_bounds` keeps the invariant |
| Tables.AddRowsNames | src/mps_parser.cpp:15-16 | a run of rows appends every name in order, duplicates included |
| Tables.AddRowsTypes | src/mps_parser.cpp:17 | each name's type is that of its last occurrence |
| Tables.AddRowsObjective | src/mps_parser.cpp:18-20 | the objective is the last N row; it is unchanged when there is no N row |
| Tables.ColumnNamesDistinct | src/mps_parser.cpp:25-29 | in a well-formed state the column names are distinct and are exactly the indexed names |
| Tables.ColumnRegistration | src/mps_parser.cpp:25-29 | an unseen column is appended with index = column count; a seen one keeps its index; other indices are unchanged |
| Tables.CoefficientDestination | src/mps_parser.cpp:31-35 | the value goes to the objective exactly when the row is the objective row, and to constraints[row][col] otherwise; nothing else changes |
| Tables.StoreKeepsColumns | src/mps_parser.cpp:31-35 | storing a coefficient leaves the columns alone |
| Tables.StoreLastWins | src/mps_parser.cpp:31-35 | storing twice into the same cell keeps the second value |
| Tables.CoefficientLastWins | src/mps_parser.cpp:23-36 | re-specifying a coefficient overwrites it; values are never summed |
| Tables.RhsLastWins | src/mps_parser.cpp:38-40 | re-specifying a right-hand side keeps the last value |
| Tables.AddBoundEffect | src/mps_parser.cpp:42-65 | only the named column's bound changes; an unseen column starts from [0, +inf) |
| Tables.BoundCodes | src/mps_parser.cpp:48-64 | LO, UP, FX, FR, MI, PL and BV each set exactly their sides; any other code changes nothing |
| Tables.BoundComposition | src/mps_parser.cpp:42-65 | MI then UP v gives (-inf, v), in either order; FX v gives (v, v) |
| Tables.UnknownBoundCode | src/mps_parser.cpp:43-45 | an unsupported code still creates the default entry for an unseen column and changes nothing else |
| Tables.BoundIdempotent | src/mps_parser.cpp:48-64 | applying the same directive twice equals applying it once |
| Assembly.Bucket | src/mps_parser.cpp:104-112 | strictly increasing row indices: exactly the rows of that type other than the objective |
| Assembly.BucketStep | src/mps_parser.cpp:104-112 | one more row joins the bucket exactly when it qualifies |
| Assembly.Names | src/mps_parser.cpp:133 | selecting names by index gives `row_names_[i]` at each position |
| Assembly.ExtendBlock | src/mps_parser.cpp:132-145 | placing the next row extends the block's entries and right-hand sides by that row |
| Assembly.FinalisedDimensions | tests/test_mps.cpp:52-112 | c, lb, ub and names have n_vars entries; names are distinct; each block has as many rows as its rhs; a non-empty block has n_vars columns; entries lie inside the block |
| Assembly.EqualityRowPlacement | src/mps_parser.cpp:127-147 | the i-th E row is row i of A_eq/b_eq, with the same signs |
| Assembly.LessRowPlacement | src/mps_parser.cpp:158-172 | the k-th L row is row k of A_ineq/b_ineq, with the same signs |
| Assembly.GreaterRowPlacement | src/mps_parser.cpp:175-189 | the k-th G row is row \|L\|+k, with every coefficient and the right-hand side (0 when missing) negated |
| Assembly.ObjectiveEntry | src/mps_parser.cpp:115-125 | c at a column's index is its objective coefficient, or 0 |
| Assembly.BlockUnique | src/mps_parser.cpp:92-193 | the rows of a block determine its matrix and right-hand side |
| Assembly.FinalisedUnique | src/mps_parser.cpp:321-344 | for a given parse time, the accumulated state fixes the record |
| Assembly.BlockIgnoresBounds | src/mps_parser.cpp:127-192 | the blocks do not depend on the bounds |
| Assembly.DefaultBoundsKeepFinalised | src/mps_parser.cpp:321-328 | applying the defaults before finalising changes no record |
| Streams.SkipSpaces | src/mps_parser.cpp:198 | the extraction skips exactly the leading C-locale white space |
| Streams.WordEnd | src/mps_parser.cpp:198 | a word is the longest following run of non-white characters |
| Streams.ReadWord | src/mps_parser.cpp:198 | fails exactly when only white space is left; otherwise returns a non-empty word without white space and the rest of the stream |
| Streams.WordOrEmpty | src/mps_parser.cpp:198 | the string after a possibly failed extraction; empty only when nothing was left |
| Streams.ScanNumber | src/mps_parser.cpp:216 | the positions of the accumulated text are in order: integer part, at most one point, fraction part, then, only when an exponent mark was taken, the exponent part after it |
| Streams.ScanExponent | src/mps_parser.cpp:216 | positions in order: an exponent, when taken, starts after the mark; otherwise nothing is consumed |
| Streams.ScanMantissa | src/mps_parser.cpp:216 | positions in order: integer part, then at most one character for the point, then fraction part |
| Streams.ReadNumber | src/mps_parser.cpp:216 | a successful read consumes a non-empty prefix and leaves the actual rest of the stream |
| Streams.ReadWordRendered | src/mps_parser.cpp:198 | a token written after white space is read back exactly |
| Streams.ReadDigitsRendered | src/mps_parser.cpp:216 | a run of digits, optionally signed with '-', reads back as its value |
| Streams.ReadNumberRendered | src/mps_parser.cpp:216 | an integer in `std::to_string` form reads back as the same value |
| Streams.ReadNumberRejects | src/mps_parser.cpp:216 | a character that cannot start a number makes the read fail |
| Streams.FractionExample | src/mps_parser.cpp:216 | " 2.5" reads 2.5 |
| Streams.ExponentExample | src/mps_parser.cpp:216 | "-.25E-1" reads -0.025 |
| Streams.DanglingExponentExample | src/mps_parser.cpp:216 | "1e" does not read |
| Streams.DigitsValueOfNatToString | src/mps_parser.cpp:307-308 | the digits `std::to_string` writes denote the number |
| Sections.ParseRowsSection | src/mps_parser.cpp:195-205 | passes exactly when `RowsLine` does; the state becomes its result, or the error is its error and nothing changes |
| Sections.ParseColumnsSection | src/mps_parser.cpp:207-219 | the pair loop on the state follows `ColumnsLine` |
| Sections.ParseRhsSection | src/mps_parser.cpp:221-231 | the pair loop on the state follows `RhsLine` |
| Sections.ParseBoundsSection | src/mps_parser.cpp:233-244 | the state follows `BoundsLine` |
| Sections.ExtractedValue | src/mps_parser.cpp:238-241 | the value passed to `add_bound` is `BoundValue` |
| Sections.HandleSectionLine | src/mps_parser.cpp:296-305 | routing to the handler of the current section follows `HandleLine`, error included |
| Sections.ReadBlank | src/mps_parser.cpp:198 | on white space only, both kinds of extraction fail |
| Sections.ColumnsPairRendered | src/mps_parser.cpp:216-218 | one written `row value` pair adds its coefficient, and the loop goes on after it |
| Sections.RhsPairRendered | src/mps_parser.cpp:228-230 | one written `row value` pair sets its right-hand side, and the loop goes on after it |
| Sections.ColumnsPairsStopAtNonNumber | src/mps_parser.cpp:216 | a row name followed by a non-number ends the line and adds nothing; it is not an error |
| Sections.ColumnsPairsIgnoreOddToken | src/mps_parser.cpp:216 | a row name with no value after it is ignored |
| Sections.ColumnsLineTwoPairs | src/mps_parser.cpp:207-219 | `col r1 v1 r2 v2` adds both coefficients, in order |
| Sections.QuotedMarkerLineSkipped | src/mps_parser.cpp:212 | a line whose first word is 'MARKER' (with quotes) changes nothing |
| Sections.IntegralityMarkerChangesNothing | src/mps_parser.cpp:207-219 | the standard `name 'MARKER' 'INTORG'` line changes nothing |
| Sections.RowsLineRendered | src/mps_parser.cpp:195-205 | `type name`: a one-character type adds the row; any other length is the error "Invalid row type: " + type |
| Sections.RowsLineBlank | src/mps_parser.cpp:198-202 | a blank ROWS line is the error with an empty type |
| Sections.RowsLineWithoutName | src/mps_parser.cpp:198-204 | a type without a name adds a row named "" |
| Sections.RhsLineRendered | src/mps_parser.cpp:221-231 | `vector row value` sets that row's right-hand side; the vector name is discarded |
| Sections.BoundsWords | src/mps_parser.cpp:236 | the three leading words are read as code, vector and column |
| Sections.BoundsLineRendered | src/mps_parser.cpp:233-244 | `code vector col value` applies the code with that value |
| Sections.BoundsLineIgnoresValue | src/mps_parser.cpp:238-241 | FR, MI and PL ignore whatever follows the column |
| Sections.BoundsLineWithoutValue | src/mps_parser.cpp:238-243 | a line that ends at the column passes 0.0 |
| Sections.ColumnsPairsEffect | src/mps_parser.cpp:216-218 | the COLUMNS loop only touches columns, objective and constraints, and keeps the invariant |
| Sections.RhsPairsEffect | src/mps_parser.cpp:228-230 | the RHS loop touches only the right-hand sides |
| Sections.RowsLineEffect | src/mps_parser.cpp:195-205 | a ROWS line only touches rows, types and objective name, and keeps the invariant |
| Sections.ColumnsLineEffect | src/mps_parser.cpp:207-219 | a COLUMNS line only touches columns, objective and constraints, and keeps the invariant |
| Sections.BoundsLineEffect | src/mps_parser.cpp:233-244 | a BOUNDS line touches only the bounds, and keeps the invariant |
| Sections.HandleLineKeepsWellFormed | src/mps_parser.cpp:296-305 | a line that does not fail leaves a well-formed state, in every section |
| Sections.RhsPairsKeepsWellFormed | src/mps_parser.cpp:228-230 | the RHS loop keeps the invariant |
| Sections.NegativeUpperBoundCrossesDefault | src/mps_parser.cpp:43-51 | `UP` with a negative value on an unseen column gives lower 0 > upper |
| Dispatcher.ParseMps | src/mps_parser.cpp:246-346 | open failure is "Failed to open file: " + path; otherwise succeeds exactly when the loop does, with the loop's error; on success the state is well-formed, the record is its finalisation, and the parse time is the one given |
| Dispatcher.LineStepKeepsWellFormed | src/mps_parser.cpp:278-310 | one line keeps the state well-formed, whether the loop goes on or stops |
| Dispatcher.ScanFromKeepsWellFormed | src/mps_parser.cpp:266-311 | every state the loop reaches is well-formed |
| Dispatcher.LineRouting | src/mps_parser.cpp:278-310 | blank and comment lines change nothing; a header other than ENDATA only switches section; a handler error is returned as "Error parsing line k+1 in section S: " + message; success continues with the new state |
| Dispatcher.NamedHeaderLineDropped | src/mps_parser.cpp:285-305 | `NAME foo` is no header, and before any header it is dropped |
| Dispatcher.LinesAfterEndataIgnored | src/mps_parser.cpp:288 | nothing after an ENDATA line affects the result |
| Dispatcher.ClockReadOnlyAtCheckpoints | src/mps_parser.cpp:270-276 | two clocks that agree on the timeout at every 100th line give the same result |
| Dispatcher.NoTimeoutWithinBudget | src/mps_parser.cpp:270-276 | within the budget at every checkpoint, the timeout error never occurs |
| Dispatcher.UnhandledSectionDropsLines | src/mps_parser.cpp:296-305 | in a section without a handler, and with no header ahead, the state is returned unchanged (or the timeout error) |
| Dispatcher.CarriageReturnLineIsNoHeader | src/mps_parser.cpp:279-287 | a line ending in '\r' keeps it after trimming and is never a header |
| Dispatcher.CrlfFileParsesToEmptyState | src/mps_parser.cpp:266-311 | a file whose every line ends in '\r' parses to the empty state (or the timeout error) |
| Text.FirstNonBlank | src/mps_parser.cpp:279 | the first index at or after i that is not a space or tab, or the length |
| Text.EndOfNonBlank | src/mps_parser.cpp:280 | one past the last character that is not a space or tab |
| Text.TrimShape | src/mps_parser.cpp:279-280 | the trimmed line is the part of the line from its first to its last non-blank character; it is empty exactly when there is none |
| Text.NatToString | src/mps_parser.cpp:307-308 | `std::to_string` gives a non-empty string of digits |
| Reader.DropCarriageReturn | src/mps_reader.cpp:36-39 | removes exactly one final '\r', if there is one |
| Reader.ReadProblemName | src/mps_reader.cpp:25-55 | a missing file and an empty file give their errors; a name it returns is non-empty with no space or tab at either end |
| Reader.CountLines | src/mps_reader.cpp:9-23 | a missing file is an error; otherwise the count is the number of lines |
| Reader.ProblemNameShape | src/mps_reader.cpp:41-54 | a returned name follows "NAME" with only spaces and tabs around it in the line, and does not start or end with one |
| Reader.ProblemNameRendered | src/mps_reader.cpp:36-54 | "NAME", blanks, a name, blanks and perhaps '\r' give back exactly that name |
| Reader.FiftyVTen | tests/test_mps.cpp:47-50 | the first line of the test instance names the problem "50v-10" |
| Reader.NameWithoutProblemName | src/mps_reader.cpp:47-50 | "NAME" followed by blanks only is the missing-name error |
| Reader.NotNameLineRejected | src/mps_reader.cpp:41-44 | the not-NAME error is raised exactly when the first four characters (after dropping a final '\r') are not "NAME" |
| Reader.ShortFirstLineRejected | src/mps_reader.cpp:42-44 | a first line shorter than four characters is the not-NAME error |
| Reader.OneCarriageReturnRemoved | src/mps_reader.cpp:36-39 | only one '\r' is removed; a second one stays in the name |

## Left out

- Clocks: `std::chrono` readings are the parameter `elapsed` for the timeout, and the total parse time is the parameter `parseTime`. The millisecond and microsecond timings are left out.
- Console output: the `std::cout` progress lines, the RANGES warning (src/mps_parser.cpp:290-292) and the error echo before the rethrow (src/mps_parser.cpp:333-335) are not modelled.
- File I/O: a file is its sequence of lines as `std::getline` splits it, or `None` when it cannot be opened. How bytes become lines is not modelled.
- Characters: each Dafny `char` of a line stands for one byte of the file (values 0-255), so a multi-byte UTF-8 character is several chars. Under this reading `type_str.length()` (src/mps_parser.cpp:200) counts exactly what `|typeStr|` counts.
- Floating point: values are exact reals, and rounding to `double` is not modelled. An out-of-range value such as `1e400` makes the libstdc++ read fail: COLUMNS and RHS then stop the line, and BOUNDS gets ±DBL_MAX. The model instead reads such a value exactly.
- Streams.ReadNumber: only the "C" locale is modelled. Digit grouping and other locales are not.
- Eigen: a sparse matrix is its shape and a map from (row, column) to value. Triplet storage and compression are not modelled. Duplicate triplets cannot arise, because each row's coefficients are a map.
- Integer widths: `int n_vars`, `int new_index`, the `int` count of `count_lines` and the `size_t` line counter are unbounded naturals, so overflow past 2^31 lines or columns is not modelled.
- Map iteration order: the finalisation loops visit a row's coefficients in any order. This does not matter, because each coefficient goes to its own (row, column) cell.
- Exceptions: a thrown `std::runtime_error` is an `Err` carrying its message. The `unique_ptr` wrapping of the result is not modelled.
- ParserStates.ParserState.GetRowNames, GetColNames and GetObjectiveName are plain field reads and carry no contract.
- The `LpData` getters and its constructor (src/lp_data.h) are not part of this model; `LpData` is a datatype with those fields.
- The command-line driver and anything outside the three core files are not part of this model.
