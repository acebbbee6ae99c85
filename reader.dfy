/**
 * src/mps_reader.cpp: the problem name from the first line of a file,
 * and the number of lines of a file. The file is given as its lines
 * (None when it cannot be opened).
 */
module Reader {
  import opened Wrappers
  import opened Text

  /** Nothing but spaces and tabs. */
  predicate AllBlank(s: string) {
    forall k | 0 <= k < |s| :: IsBlank(s[k])
  }

  /** `if (!line.empty() && line.back() == '\r') line.pop_back();` */
  function DropCarriageReturn(line: string): (r: string)
    ensures line != [] && line[|line| - 1] == '\r' ==> line == r + ['\r']
    ensures !(line != [] && line[|line| - 1] == '\r') ==> r == line
  {
    if line != [] && line[|line| - 1] == '\r' then line[..|line| - 1] else line
  }

  /** `line.substr(0, 4)`: the first four characters, or the whole line when it is shorter. */
  function Prefix4(line: string): string {
    if |line| < 4 then line else line[..4]
  }

  const NoNameLine := "Invalid MPS file: First line must start with 'NAME'"
  const NoProblemName := "Invalid MPS file: NAME section contains no problem name"

  /** The name extraction of `read_problem_name` (src/mps_reader.cpp:36-54) on the first line. */
  function ProblemNameOfLine(line: string): Result<string> {
    var l := DropCarriageReturn(line);
    if Prefix4(l) != "NAME" then Err(NoNameLine)
    else
      var start := FirstNonBlank(l, 4);
      if start == |l| then Err(NoProblemName)
      else
        EndOfNonBlankAfter(l, start);
        Ok(l[start..EndOfNonBlank(l)])
  }

  /** `read_problem_name` (src/mps_reader.cpp:25-55). */
  function ReadProblemName(file: Option<seq<string>>, filename: string): (r: Result<string>)
    ensures file.None? ==> r == Err("Failed to open file: " + filename)
    ensures file == Some([]) ==> r == Err("Failed to read NAME section: empty file")
    ensures r.Ok? ==> r.value != [] && !IsBlank(r.value[0]) && !IsBlank(r.value[|r.value| - 1])
  {
    match file
    case None => Err("Failed to open file: " + filename)
    case Some(lines) =>
      if lines == [] then Err("Failed to read NAME section: empty file")
      else
        ProblemNameShape(lines[0]);
        ProblemNameOfLine(lines[0])
  }

  /** `count_lines` (src/mps_reader.cpp:9-23): one count per line read. */
  method CountLines(file: Option<seq<string>>, filename: string) returns (r: Result<nat>)
    ensures file.None? ==> r == Err("Failed to open file: " + filename)
    ensures file.Some? ==> r == Ok(|file.value|)
  {
    if file.None? {
      return Err("Failed to open file: " + filename);
    }
    var unread := file.value;
    var lineCount := 0;
    while unread != []
      invariant lineCount + |unread| == |file.value|
      decreases |unread|
    {
      lineCount := lineCount + 1;
      unread := unread[1..];
    }
    return Ok(lineCount);
  }

  // ---------------------------------------------------------- properties

  /**
   * Whatever succeeds is a non-empty name with no space or tab at either
   * end, found in the line after "NAME" with only spaces and tabs around it.
   */
  lemma ProblemNameShape(line: string)
    ensures var r := ProblemNameOfLine(line); var l := DropCarriageReturn(line);
      r.Ok? ==>
        && |l| >= 4 && l[..4] == "NAME"
        && r.value != [] && !IsBlank(r.value[0]) && !IsBlank(r.value[|r.value| - 1])
        && exists i | 4 <= i && i + |r.value| <= |l| ::
             && l[i..i + |r.value|] == r.value
             && AllBlank(l[4..i])
             && AllBlank(l[i + |r.value|..])
  {
    var r := ProblemNameOfLine(line);
    var l := DropCarriageReturn(line);
    if r.Ok? {
      var i := FirstNonBlank(l, 4);
      var end := EndOfNonBlank(l);
      assert l[i..i + |r.value|] == r.value;
      assert AllBlank(l[4..i]) by {
        forall k | 0 <= k < i - 4 ensures IsBlank(l[4..i][k]) {
          assert l[4..i][k] == l[4 + k];
        }
      }
      assert AllBlank(l[end..]) by {
        forall k | 0 <= k < |l| - end ensures IsBlank(l[end..][k]) {
          assert l[end..][k] == l[end + k];
        }
      }
    }
  }

  /**
   * The other direction: "NAME", spaces and tabs, a name that neither
   * starts nor ends with one, spaces and tabs, and perhaps one '\r' give
   * back exactly that name. No separator after NAME is needed.
   */
  lemma ProblemNameRendered(pad: string, name: string, tail: string, cr: string)
    requires AllBlank(pad) && AllBlank(tail) && (cr == "" || cr == "\r")
    requires name != [] && !IsBlank(name[0]) && !IsBlank(name[|name| - 1])
    requires cr == "" ==> (name + tail)[|name + tail| - 1] != '\r'
    ensures ProblemNameOfLine("NAME" + pad + name + tail + cr) == Ok(name)
  {
    var l := "NAME" + pad + name + tail;
    CarriageReturnDropped(l, name + tail, cr);
    assert l[..4] == "NAME";
    var start := 4 + |pad|;
    var end := start + |name|;
    assert l[start] == name[0];
    FirstNonBlankStops(l, 4, start);
    assert l[end - 1] == name[|name| - 1];
    EndOfNonBlankStops(l, end);
    assert l[start..end] == name;
  }

  lemma CarriageReturnDropped(l: string, last: string, cr: string)
    requires (cr == "" || cr == "\r") && last != [] && |last| <= |l| && l[|l| - |last|..] == last
    requires cr == "" ==> last[|last| - 1] != '\r'
    ensures DropCarriageReturn(l + cr) == l
  {
    if cr == "" {
      assert l + cr == l;
      assert l[|l| - 1] == last[|last| - 1];
    } else {
      assert (l + cr)[..|l + cr| - 1] == l;
    }
  }

  lemma {:induction false} FirstNonBlankStops(s: string, i: nat, m: nat)
    requires i <= m < |s|
    requires forall k | i <= k < m :: IsBlank(s[k])
    requires !IsBlank(s[m])
    ensures FirstNonBlank(s, i) == m
    decreases m - i
  {
    if i < m {
      FirstNonBlankStops(s, i + 1, m);
    }
  }

  lemma {:induction false} EndOfNonBlankStops(s: string, m: nat)
    requires 0 < m <= |s|
    requires forall k | m <= k < |s| :: IsBlank(s[k])
    requires !IsBlank(s[m - 1])
    ensures EndOfNonBlank(s) == m
    decreases |s|
  {
    if |s| > m {
      var shorter := s[..|s| - 1];
      assert forall k | m <= k < |shorter| :: shorter[k] == s[k];
      EndOfNonBlankStops(shorter, m);
    }
  }

  /** The first line of tests/test_mps.cpp's instance names the problem 50v-10. */
  lemma FiftyVTen(pad: string, rest: seq<string>, filename: string)
    requires |pad| > 0 && AllBlank(pad)
    ensures ReadProblemName(Some(["NAME" + pad + "50v-10"] + rest), filename) == Ok("50v-10")
  {
    assert "NAME" + pad + "50v-10" == "NAME" + pad + "50v-10" + "" + "";
    assert ("50v-10" + "")[5] == '0';
    ProblemNameRendered(pad, "50v-10", "", "");
  }

  /** "NAME" followed by spaces and tabs only (and perhaps '\r') is the missing-name error. */
  lemma NameWithoutProblemName(pad: string, cr: string)
    requires AllBlank(pad) && (cr == "" || cr == "\r")
    ensures ProblemNameOfLine("NAME" + pad + cr) == Err(NoProblemName)
  {
    var l := "NAME" + pad;
    assert DropCarriageReturn(l + cr) == l by {
      if cr == "" {
        assert l + cr == l;
      } else {
        assert (l + cr)[..|l + cr| - 1] == l;
      }
    }
    assert l[..4] == "NAME";
  }

  /** A first line shorter than four characters (once a final '\r' is dropped) is rejected: `substr` cannot give "NAME". */
  lemma ShortFirstLineRejected(line: string)
    requires |DropCarriageReturn(line)| < 4
    ensures ProblemNameOfLine(line) == Err(NoNameLine)
  {
  }

  /**
   * The not-NAME error is raised exactly when the first four characters
   * (after dropping a final '\r') are not "NAME".
   */
  lemma NotNameLineRejected(line: string)
    ensures ProblemNameOfLine(line) == Err(NoNameLine) <==> Prefix4(DropCarriageReturn(line)) != "NAME"
  {
  }

  /** Only one '\r' is removed: a second one stays in the name. */
  lemma OneCarriageReturnRemoved(name: string)
    requires name != [] && !IsBlank(name[0])
    ensures ProblemNameOfLine("NAME " + name + "\r\r") == Ok(name + "\r")
  {
    assert "NAME " + name + "\r\r" == "NAME" + " " + (name + "\r") + "" + "\r";
    ProblemNameRendered(" ", name + "\r", "", "\r");
  }
}
