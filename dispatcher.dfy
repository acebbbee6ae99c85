/**
 * `parse_mps` (src/mps_parser.cpp:247-346): the line loop that trims each
 * line, skips blanks and comments, switches sections on the exact header
 * keywords, stops at ENDATA, routes every other line to the handler of
 * the current section and polls a wall-clock budget every 100 lines; then
 * the finalisation of the parser state into an `LpData`.
 *
 * The file is given as its lines (None when it cannot be opened), the
 * clock as `elapsed(k)`, the whole seconds since the start at the moment
 * the 0-based line k is read, and the total parse time as a number.
 */
module Dispatcher {
  import opened Wrappers
  import opened Text
  import opened LpRecord
  import T = Tables
  import A = Assembly
  import S = Sections
  import P = ParserStates

  /** `TIMEOUT_SECONDS` (src/mps_parser.h:17). */
  const TimeoutSeconds: nat := 1000

  const TimeoutMessage := "MPS parsing exceeded timeout"

  /** The section keywords, matched against the whole trimmed line. */
  predicate IsHeader(line: string) {
    line == "NAME" || line == "ROWS" || line == "COLUMNS" || line == "RHS"
    || line == "RANGES" || line == "BOUNDS" || line == "ENDATA"
  }

  /** A trimmed line the loop skips: empty, or a comment. */
  predicate IsSkipped(line: string) {
    line == [] || line[0] == '*'
  }

  /** The clock is read before line k (0-based) when k is a multiple of 100. */
  predicate TimedOut(elapsed: nat -> nat, k: nat) {
    k % 100 == 0 && elapsed(k) > TimeoutSeconds
  }

  /** The handler's message with its 1-based line number and section. */
  function WrapMessage(k: nat, section: string, e: string): string {
    "Error parsing line " + NatToString(k + 1) + " in section " + section + ": " + e
  }

  /** What one trimmed line does: go on (perhaps in a new section, with a new state) or end the loop. */
  datatype Step = Next(section: string, t: T.Tables) | Stop(result: Result<T.Tables>)

  /** The body of the loop for the trimmed 0-based line k, once the clock check has passed. */
  function LineStep(k: nat, section: string, line: string, t: T.Tables): Step {
    if IsSkipped(line) then Next(section, t)
    else if line == "ENDATA" then Stop(Ok(t))
    else if IsHeader(line) then Next(line, t)
    else match S.HandleLine(section, line, t)
      case Err(e) => Stop(Err(WrapMessage(k, section, e)))
      case Ok(t1) => Next(section, t1)
  }

  /** The loop from the 0-based line k on, in section `section`, with accumulated state t. */
  function ScanFrom(lines: seq<string>, k: nat, section: string, t: T.Tables, elapsed: nat -> nat): Result<T.Tables>
    requires k <= |lines|
    decreases |lines| - k
  {
    if k == |lines| then Ok(t)
    else if TimedOut(elapsed, k) then Err(TimeoutMessage)
    else match LineStep(k, section, Trim(lines[k]), t)
      case Next(section1, t1) => ScanFrom(lines, k + 1, section1, t1, elapsed)
      case Stop(r) => r
  }

  /** The whole loop: no section yet, a fresh parser state. */
  function Scan(lines: seq<string>, elapsed: nat -> nat): Result<T.Tables> {
    ScanFrom(lines, 0, "", T.Empty, elapsed)
  }

  /** `parse_mps`. */
  method ParseMps(path: string, file: Option<seq<string>>, elapsed: nat -> nat, parseTime: real)
    returns (r: Result<LpData>)
    ensures file.None? ==> r == Err("Failed to open file: " + path)
    ensures file.Some? ==> (r.Ok? <==> Scan(file.value, elapsed).Ok?)
    ensures file.Some? && r.Err? ==> r.error == Scan(file.value, elapsed).error
    ensures file.Some? && r.Ok? ==>
      && T.WellFormed(Scan(file.value, elapsed).value)
      && A.Finalised(Scan(file.value, elapsed).value, r.value)
      && r.value.parseTimeSeconds == parseTime
  {
    if file.None? {
      return Err("Failed to open file: " + path);
    }
    var lines := file.value;
    var state := new P.ParserState();
    var section := "";
    var lineNum: nat := 0;
    while lineNum < |lines|
      invariant lineNum <= |lines|
      invariant state.Valid()
      invariant ScanFrom(lines, lineNum, section, state.Snapshot(), elapsed) == Scan(lines, elapsed)
      decreases |lines| - lineNum
    {
      if lineNum % 100 == 0 && elapsed(lineNum) > TimeoutSeconds {
        return Err(TimeoutMessage);
      }
      var line := Trim(lines[lineNum]);
      lineNum := lineNum + 1;
      if IsSkipped(line) {
        continue;
      }
      if IsHeader(line) {
        if line == "ENDATA" {
          break;
        }
        section := line;
        continue;
      }
      ghost var before := state.Snapshot();
      var outcome := S.HandleSectionLine(section, line, state);
      if outcome.Fail? {
        return Err("Error parsing line " + NatToString(lineNum) + " in section " + section + ": " + outcome.error);
      }
      S.HandleLineKeepsWellFormed(section, line, before);
    }
    ghost var t := state.Snapshot();
    assert Scan(lines, elapsed) == Ok(t);
    T.SetDefaultBoundsKeepsWellFormed(t);
    state.SetDefaultBounds();
    var lb, ub := state.CreateBounds();
    var nVars, c, aEq, bEq, aIneq, bIneq := state.BuildMatrices();
    var names := state.GetColNames();
    var lp := LpData(nVars, c, lb, ub, aEq, bEq, aIneq, bIneq, 0.0, names, parseTime);
    A.DefaultBoundsKeepFinalised(t, lp);
    return Ok(lp);
  }

  // ---------------------------------------------------------- properties

  /** One line keeps the state well-formed, whether the loop goes on or ends with a result. */
  lemma LineStepKeepsWellFormed(k: nat, section: string, line: string, t: T.Tables)
    requires T.WellFormed(t)
    ensures var step := LineStep(k, section, line, t);
      && (step.Next? ==> T.WellFormed(step.t))
      && (step.Stop? && step.result.Ok? ==> T.WellFormed(step.result.value))
  {
    if !IsSkipped(line) && !IsHeader(line) {
      S.HandleLineKeepsWellFormed(section, line, t);
    }
  }

  /** Every state the loop reaches from a well-formed one is well-formed. */
  lemma {:induction false} ScanFromKeepsWellFormed(lines: seq<string>, k: nat, section: string, t: T.Tables,
                                                   elapsed: nat -> nat)
    requires k <= |lines| && T.WellFormed(t)
    ensures var r := ScanFrom(lines, k, section, t, elapsed); r.Ok? ==> T.WellFormed(r.value)
    decreases |lines| - k
  {
    if k < |lines| && !TimedOut(elapsed, k) {
      var step := LineStep(k, section, Trim(lines[k]), t);
      LineStepKeepsWellFormed(k, section, Trim(lines[k]), t);
      if step.Next? {
        assert ScanFrom(lines, k, section, t, elapsed) == ScanFrom(lines, k + 1, step.section, step.t, elapsed);
        ScanFromKeepsWellFormed(lines, k + 1, step.section, step.t, elapsed);
      } else {
        assert ScanFrom(lines, k, section, t, elapsed) == step.result;
      }
    }
  }

  /**
   * One line of the loop, once the clock check has passed: a blank or
   * comment line changes nothing, a header (other than ENDATA) only
   * switches the section, and a handler's error comes back wrapped with
   * the 1-based line number and the section.
   */
  lemma {:induction false} LineRouting(lines: seq<string>, k: nat, section: string, t: T.Tables, elapsed: nat -> nat)
    requires k < |lines| && !TimedOut(elapsed, k)
    ensures var line := Trim(lines[k]);
      && (IsSkipped(line) ==> ScanFrom(lines, k, section, t, elapsed) == ScanFrom(lines, k + 1, section, t, elapsed))
      && (!IsSkipped(line) && IsHeader(line) && line != "ENDATA" ==>
            ScanFrom(lines, k, section, t, elapsed) == ScanFrom(lines, k + 1, line, t, elapsed))
      && (!IsSkipped(line) && !IsHeader(line) && S.HandleLine(section, line, t).Err? ==>
            ScanFrom(lines, k, section, t, elapsed) == Err(WrapMessage(k, section, S.HandleLine(section, line, t).error)))
      && (!IsSkipped(line) && !IsHeader(line) && S.HandleLine(section, line, t).Ok? ==>
            ScanFrom(lines, k, section, t, elapsed)
              == ScanFrom(lines, k + 1, section, S.HandleLine(section, line, t).value, elapsed))
  {
    var line := Trim(lines[k]);
    var step := LineStep(k, section, line, t);
    if step.Next? {
      assert ScanFrom(lines, k, section, t, elapsed) == ScanFrom(lines, k + 1, step.section, step.t, elapsed);
    } else {
      assert ScanFrom(lines, k, section, t, elapsed) == step.result;
    }
  }

  /**
   * `NAME foo` is not a header (the match is against the whole line), and
   * before the first header no handler is active: the line is dropped.
   */
  lemma NamedHeaderLineDropped(lines: seq<string>, k: nat, t: T.Tables, elapsed: nat -> nat, name: string)
    requires k < |lines| && !TimedOut(elapsed, k)
    requires Trim(lines[k]) == "NAME " + name && name != []
    ensures ScanFrom(lines, k, "", t, elapsed) == ScanFrom(lines, k + 1, "", t, elapsed)
  {
    var line := Trim(lines[k]);
    assert |line| > 4 && line[0] == 'N';
    assert !IsHeader(line) by {
      assert |line| != 4 && line[0] != 'R' && line[0] != 'C' && line[0] != 'B' && line[0] != 'E';
    }
    LineRouting(lines, k, "", t, elapsed);
  }

  /** Nothing after a line reading ENDATA (after trimming) is ever looked at. */
  lemma {:induction false} LinesAfterEndataIgnored(before: seq<string>, end: string, after: seq<string>, k: nat,
                                                   section: string, t: T.Tables, elapsed: nat -> nat)
    requires k <= |before| && Trim(end) == "ENDATA"
    ensures ScanFrom(before + [end] + after, k, section, t, elapsed) == ScanFrom(before + [end], k, section, t, elapsed)
    decreases |before| - k
  {
    var long, short := before + [end] + after, before + [end];
    assert long[k] == short[k];
    if k == |before| {
      assert long[k] == end;
    } else if !TimedOut(elapsed, k) {
      var step := LineStep(k, section, Trim(long[k]), t);
      if step.Next? {
        assert ScanFrom(long, k, section, t, elapsed) == ScanFrom(long, k + 1, step.section, step.t, elapsed);
        assert ScanFrom(short, k, section, t, elapsed) == ScanFrom(short, k + 1, step.section, step.t, elapsed);
        LinesAfterEndataIgnored(before, end, after, k + 1, step.section, step.t, elapsed);
      }
    }
  }

  /** The clock matters only at the checkpoints: two clocks that agree there give the same result. */
  lemma {:induction false} ClockReadOnlyAtCheckpoints(lines: seq<string>, k: nat, section: string, t: T.Tables,
                                                      e1: nat -> nat, e2: nat -> nat)
    requires k <= |lines|
    requires forall j: nat | k <= j < |lines| && j % 100 == 0 :: (e1(j) > TimeoutSeconds) == (e2(j) > TimeoutSeconds)
    ensures ScanFrom(lines, k, section, t, e1) == ScanFrom(lines, k, section, t, e2)
    decreases |lines| - k
  {
    if k < |lines| && !TimedOut(e1, k) {
      match LineStep(k, section, Trim(lines[k]), t)
      case Next(section1, t1) => ClockReadOnlyAtCheckpoints(lines, k + 1, section1, t1, e1, e2);
      case Stop(_) =>
    }
  }

  /** Within the budget at every checkpoint, the parse never fails with the timeout error. */
  lemma {:induction false} NoTimeoutWithinBudget(lines: seq<string>, k: nat, section: string, t: T.Tables,
                                                 elapsed: nat -> nat)
    requires k <= |lines|
    requires forall j: nat | k <= j < |lines| && j % 100 == 0 :: elapsed(j) <= TimeoutSeconds
    ensures ScanFrom(lines, k, section, t, elapsed) != Err(TimeoutMessage)
    decreases |lines| - k
  {
    if k < |lines| {
      var line := Trim(lines[k]);
      match LineStep(k, section, line, t)
      case Next(section1, t1) => NoTimeoutWithinBudget(lines, k + 1, section1, t1, elapsed);
      case Stop(r) =>
        if !IsSkipped(line) && line != "ENDATA" && !IsHeader(line) && S.HandleLine(section, line, t).Err? {
          assert WrapMessage(k, section, S.HandleLine(section, line, t).error)[0] == 'E';
        }
    }
  }

  /** A section without a handler: until the next header every data line is dropped. */
  predicate Unhandled(section: string) {
    section != "ROWS" && section != "COLUMNS" && section != "RHS" && section != "BOUNDS"
  }

  /**
   * In a section without a handler (before the first header, NAME,
   * RANGES), with no header line left, the state is returned as it is,
   * unless the budget runs out.
   */
  lemma {:induction false} UnhandledSectionDropsLines(lines: seq<string>, k: nat, section: string, t: T.Tables,
                                                       elapsed: nat -> nat)
    requires k <= |lines| && Unhandled(section)
    requires forall j | k <= j < |lines| :: !IsHeader(Trim(lines[j]))
    ensures var r := ScanFrom(lines, k, section, t, elapsed); r == Ok(t) || r == Err(TimeoutMessage)
    decreases |lines| - k
  {
    if k < |lines| && !TimedOut(elapsed, k) {
      assert !IsHeader(Trim(lines[k]));
      UnhandledSectionDropsLines(lines, k + 1, section, t, elapsed);
    }
  }

  /** A line ending in '\r' still ends in '\r' after trimming, so it is never a header. */
  lemma CarriageReturnLineIsNoHeader(line: string)
    requires line != [] && line[|line| - 1] == '\r'
    ensures var r := Trim(line); r != [] && r[|r| - 1] == '\r' && !IsHeader(r) && r != "ENDATA"
  {
    var r := Trim(line);
    var a := FirstNonBlank(line, 0);
    TrimShape(line);
    assert !IsBlank(line[|line| - 1]);
    assert a + |r| == |line|;
    assert r[|r| - 1] == line[|line| - 1];
  }

  /**
   * A file written with CRLF line ends: no header is recognised (the trim
   * keeps the '\r'), so the section never changes from "" and the parse
   * returns the fresh state, or the timeout error.
   */
  lemma CrlfFileParsesToEmptyState(lines: seq<string>, elapsed: nat -> nat)
    requires forall j | 0 <= j < |lines| :: lines[j] != [] && lines[j][|lines[j]| - 1] == '\r'
    ensures Scan(lines, elapsed) == Ok(T.Empty) || Scan(lines, elapsed) == Err(TimeoutMessage)
  {
    forall j | 0 <= j < |lines|
      ensures !IsHeader(Trim(lines[j]))
    {
      CarriageReturnLineIsNoHeader(lines[j]);
    }
    UnhandledSectionDropsLines(lines, 0, "", T.Empty, elapsed);
  }
}
