/** The pure side of the instrumentation output parser: the status codes, the
    `key=value` parameters of a status block, how a block ("atom") is cut off
    the buffered text, and what parsing an atom and closing the run do to the
    run state and return. The class that owns the state is in module
    `Transformer`; its methods are proved against the functions here. */
module Instrumentation {
  import opened Wrappers
  import opened Text
  import opened Numbers
  import opened TestRunner

  // ---------------------------------------------------------------------------
  // Status codes

  /** The status an `INSTRUMENTATION_STATUS_CODE:` or `INSTRUMENTATION_CODE:`
      line reports. */
  datatype Status = SUCCESS | START | IN_PROGRESS | ERROR | FAILURE | IGNORED | ASSUMPTION_FAILURE | UNKNOWN
  {
    /** The integer the enum constant carries. */
    function Value(): int {
      match this
      case SUCCESS => 0
      case START => 1
      case IN_PROGRESS => 2
      case ERROR => -1
      case FAILURE => -2
      case IGNORED => -3
      case ASSUMPTION_FAILURE => -4
      case UNKNOWN => 6666
    }
  }

  /** `Status.valueOf`: total; exactly the codes -4..2 name a known status,
      and a known status is the one whose value was given. */
  function StatusOf(value: Option<int>): (s: Status)
    ensures s != UNKNOWN <==> value.Some? && -4 <= value.value <= 2
    ensures s != UNKNOWN ==> s.Value() == value.value
  {
    match value
    case None => UNKNOWN
    case Some(v) =>
      if v == 0 then SUCCESS
      else if v == 1 then START
      else if v == 2 then IN_PROGRESS
      else if v == -1 then ERROR
      else if v == -2 then FAILURE
      else if v == -3 then IGNORED
      else if v == -4 then ASSUMPTION_FAILURE
      else UNKNOWN
  }

  /** A status test ends: the parser counts it as executed. */
  predicate Completes(status: Status) {
    status == SUCCESS || status == ERROR || status == FAILURE || status == IGNORED || status == ASSUMPTION_FAILURE
  }

  /** A status whose events need a `stack` parameter. */
  predicate NeedsStack(status: Status) {
    status == ERROR || status == FAILURE || status == ASSUMPTION_FAILURE
  }

  // ---------------------------------------------------------------------------
  // Tokens of the instrumentation grammar

  const StatusCodeToken: string := "INSTRUMENTATION_STATUS_CODE"
  const CodeToken: string := "INSTRUMENTATION_CODE"
  const FailedToken: string := "INSTRUMENTATION_FAILED"
  /** What `toMap` splits the parameter lines on. */
  const StatusSeparator: string := "INSTRUMENTATION_STATUS: "
  const TimePrefix: string := "Time: "

  // ---------------------------------------------------------------------------
  // Parameters of a status block (`toMap`)

  /** `filter { it.isNotEmpty() }`. */
  function NonEmptyLines(lines: seq<string>): seq<string> {
    if |lines| == 0 then []
    else (if lines[0] == [] then [] else [lines[0]]) + NonEmptyLines(lines[1..])
  }

  /** The lambda given to `mapNotNull`: a piece that splits on `=` into exactly
      two fields gives the first field and the trimmed second one. */
  function Entry(piece: string): Option<(string, string)> {
    var fields := Split(Trim(piece), "=");
    if |fields| != 2 then None else Some((fields[0], Trim(fields[1])))
  }

  /** `mapNotNull` with `Entry`. */
  function Entries(pieces: seq<string>): seq<(string, string)> {
    if |pieces| == 0 then []
    else (match Entry(pieces[0]) case None => [] case Some(e) => [e]) + Entries(pieces[1..])
  }

  /** Kotlin's `List<Pair>.toMap()`: a later pair with the same key replaces
      an earlier one. */
  function PairsToMap(pairs: seq<(string, string)>): map<string, string> {
    if |pairs| == 0 then map[]
    else PairsToMap(pairs[..|pairs| - 1])[pairs[|pairs| - 1].0 := pairs[|pairs| - 1].1]
  }

  /** The private `List<String>.toMap()` that turns the lines before a status
      code into the block's parameters. */
  function ToMap(lines: seq<string>): map<string, string> {
    PairsToMap(Entries(Split(Join(NonEmptyLines(lines), "\n"), StatusSeparator)))
  }

  // ---------------------------------------------------------------------------
  // Cutting an atom off the buffer

  /** A line that ends an atom in `transform`. */
  predicate IsTerminator(line: string) {
    StartsWith(line, StatusCodeToken) || StartsWith(line, CodeToken)
  }

  /** `lines.indexOfFirst { ... }` with the terminator test: the first
      terminator line, or None when there is none. */
  function FirstTerminator(lines: seq<string>): (r: Option<nat>)
    ensures r.Some? ==> r.value < |lines| && IsTerminator(lines[r.value])
    ensures r.Some? ==> forall j :: 0 <= j < r.value ==> !IsTerminator(lines[j])
    ensures r.None? ==> forall j :: 0 <= j < |lines| ==> !IsTerminator(lines[j])
  {
    if |lines| == 0 then None
    else if IsTerminator(lines[0]) then Some(0)
    else
      match FirstTerminator(lines[1..])
      case None => None
      case Some(k) => Some(k + 1)
  }

  /** The block `transform` cuts off the buffered text: its lines up to and
      including the first terminator line, or None when no line is one. */
  function NextAtom(buffer: string): (atom: Option<seq<string>>)
    ensures atom.Some? ==> 1 <= |atom.value| <= |Lines(buffer)|
    ensures atom.Some? ==> atom.value == Lines(buffer)[..|atom.value|]
    ensures atom.None? <==> forall j :: 0 <= j < |Lines(buffer)| ==> !IsTerminator(Lines(buffer)[j])
    ensures atom.Some? ==> IsTerminator(atom.value[|atom.value| - 1])
    ensures atom.Some? ==> forall j :: 0 <= j < |atom.value| - 1 ==> !IsTerminator(atom.value[j])
  {
    var lines := Lines(buffer);
    match FirstTerminator(lines)
    case None => None
    case Some(k) => Some(lines[..k + 1])
  }

  /** `atom.map { it.length }.reduce { acc, i -> acc + i + 1 }`: the reduction
      starts from the first line's length, so the count is the length of the
      atom's lines joined by newlines; the newline after the last line is not
      included. */
  function ConsumedLength(atom: seq<string>): (n: nat)
    requires |atom| >= 1
    ensures n == |Join(atom, "\n")|
  {
    if |atom| == 1 then |atom[0]|
    else
      var front := atom[..|atom| - 1];
      var n := ConsumedLength(front) + |atom[|atom| - 1]| + 1;
      JoinSnoc(front, atom[|atom| - 1], "\n");
      assert front + [atom[|atom| - 1]] == atom;
      n
  }

  // ---------------------------------------------------------------------------
  // The run state, and what parsing and closing do to it

  /** The fields the parser keeps besides its buffer. */
  datatype RunState = RunState(
    startReported: bool,
    finishReported: bool,
    finished: bool,
    testsExpected: int,
    testsExecuted: int)

  const InitialRun := RunState(false, false, false, 0, 0)

  /** What the parser throws: `substring` past the end of a short code line,
      `toInt` on a `numtests` value that is not a number, and `TODO()` for an
      unknown status code. */
  datatype Exception = StringIndexOutOfBounds | NumberFormat(input: string) | NotImplemented

  /** What `parse` and `transform` return: a non-empty list of events or null,
      or an exception. */
  type Reply = Result<Option<seq<TestEvent>>, Exception>

  /** Kotlin's `if (events.isNotEmpty()) events else null`. */
  function NullIfEmpty(events: seq<TestEvent>): Option<seq<TestEvent>> {
    if |events| > 0 then Some(events) else None
  }

  /** The events a reply hands to the caller. */
  function Emitted(reply: Reply): seq<TestEvent> {
    if reply.Success? && reply.value.Some? then reply.value.value else []
  }

  /** The test a status block is about, when it names both `class` and `test`. */
  function TestId(params: map<string, string>): Option<TestIdentifier> {
    if "class" in params && "test" in params then Some(TestIdentifier(params["class"], params["test"])) else None
  }

  /** The lifecycle events a status block reports about its test. */
  function TestEvents(status: Status, params: map<string, string>): seq<TestEvent>
    requires status != UNKNOWN
  {
    var metrics: Metrics := map[];
    match TestId(params)
    case None => []
    case Some(id) =>
      match status
      case SUCCESS => [TestEnded(id, metrics)]
      case START => [TestStarted(id)]
      case IN_PROGRESS => []
      case ERROR =>
        if "stack" in params then [TestFailed(id, params["stack"]), TestEnded(id, metrics)] else []
      case FAILURE =>
        if "stack" in params then [TestFailed(id, params["stack"]), TestEnded(id, metrics)] else []
      case IGNORED => [TestStarted(id), TestIgnored(id), TestEnded(id, metrics)]
      case ASSUMPTION_FAILURE =>
        if "stack" in params then [TestAssumptionFailed(id, params["stack"]), TestEnded(id, metrics)] else []
  }

  /** The integer text after `<token>:` on a code line, trimmed, as `toIntOrNull`
      reads it; the caller has checked that the line is long enough. */
  function CodeValue(last: string, token: string): Option<int>
    requires |last| >= |token| + 1
  {
    ToIntOrNull(Trim(last[|token| + 1..]))
  }

  /** `parseStatusCode`: what a status block does to the run state, and what it
      returns or throws. The code line is read before anything else. */
  function StatusBlock(st: RunState, last: string, lines: seq<string>): (RunState, Reply) {
    if |last| < |StatusCodeToken| + 1 then (st, Failure(StringIndexOutOfBounds))
    else StatusReport(st, StatusOf(CodeValue(last, StatusCodeToken)), ToMap(lines))
  }

  /** The first step of `parseStatusCode` once the status and the parameters
      are known: before the first status block, the run is marked started and,
      when the block has `numtests`, a `TestRunStartedEvent` with that count
      is reported and the count becomes the number of tests expected. A
      `numtests` that is not a number throws before anything changes. */
  function RunStartReport(st: RunState, params: map<string, string>): Result<(RunState, seq<TestEvent>), Exception> {
    if st.startReported then Success((st, []))
    else if "numtests" !in params then Success((st.(startReported := true), []))
    else
      match ToIntOrNull(params["numtests"])
      case None => Failure(NumberFormat(params["numtests"]))
      case Some(n) => Success((st.(startReported := true, testsExpected := n), [TestRunStartedEvent(n)]))
  }

  /** The rest of `parseStatusCode`: after the run start, the status decides
      the test's events and whether it is counted; an unknown status throws,
      keeping the state changes made so far. */
  function StatusReport(st: RunState, status: Status, params: map<string, string>): (RunState, Reply) {
    match RunStartReport(st, params)
    case Failure(e) => (st, Failure(e))
    case Success((started, runStart)) =>
      if status == UNKNOWN then (started, Failure(NotImplemented))
      else
        var executed := started.testsExecuted + (if Completes(status) then 1 else 0);
        (started.(testsExecuted := executed), Success(NullIfEmpty(runStart + TestEvents(status, params))))
  }

  /** The run time the `Time:` lines give: the value of the last one, 0 when
      there is none or the last one is not a number. */
  function RunTime(atom: seq<string>): int {
    if |atom| == 0 then 0
    else
      var line := atom[|atom| - 1];
      if StartsWith(line, TimePrefix) then
        match SecondsToMillis(line[|TimePrefix|..]) case Some(t) => t case None => 0
      else RunTime(atom[..|atom| - 1])
  }

  /** `parseInstrumentationCode`: only code -1 (`ERROR`) reports the end of the
      run, with the time the block gives; any other code returns null. */
  function CodeBlock(st: RunState, last: string, atom: seq<string>): (RunState, Reply) {
    if |last| < |CodeToken| + 1 then (st, Failure(StringIndexOutOfBounds))
    else if StatusOf(CodeValue(last, CodeToken)) == ERROR then
      (st.(finishReported := true), Success(Some([TestRunEnded(RunTime(atom), map[])])))
    else (st, Success(None))
  }

  /** `parse`: the last line of the atom decides the branch. */
  function ParseAtom(st: RunState, atom: seq<string>): (RunState, Reply)
    requires |atom| >= 1
  {
    var last := atom[|atom| - 1];
    if StartsWith(last, StatusCodeToken) then StatusBlock(st, last, atom[..|atom| - 1])
    else if StartsWith(last, CodeToken) then CodeBlock(st.(finished := true), last, atom)
    else if StartsWith(last, FailedToken) then (st.(finished := true), Success(None))
    else (st, Success(None))
  }

  const NoTestResults: string := "No test results"
  const IncompleteBefore: string := "Test run failed to complete. Expected "
  const IncompleteBetween: string := " tests, executed "

  function IncompleteMessage(expected: int, executed: int): string {
    IncompleteBefore + IntToString(expected) + IncompleteBetween + IntToString(executed)
  }

  /** `close`: the terminal signal at the end of the stream. */
  function CloseRun(st: RunState): (RunState, Option<seq<TestEvent>>) {
    if st.finishReported then (st, None)
    else if !st.startReported && !st.finished then (st, Some([TestRunFailed(NoTestResults)]))
    else if st.testsExpected > st.testsExecuted then
      (st, Some([TestRunFailed(IncompleteMessage(st.testsExpected, st.testsExecuted))]))
    else
      var start := if !st.startReported then [TestRunStartedEvent(0)] else [];
      (st.(finishReported := true), Some(start + [TestRunEnded(0, map[])]))
  }

  // ---------------------------------------------------------------------------
  // What the run state says about the events reported so far

  predicate Ended(trace: seq<TestEvent>) {
    exists i :: 0 <= i < |trace| && trace[i].TestRunEnded?
  }

  predicate RunStarted(trace: seq<TestEvent>) {
    exists i :: 0 <= i < |trace| && trace[i].TestRunStartedEvent?
  }

  /** The invariant tying the run state to the events handed out so far:
      `finishReported` holds exactly when a `TestRunEnded` has been reported;
      nothing is expected or executed before the first status block; and a
      `TestRunStartedEvent` reported while the run is not finished has set
      `startReported`. */
  ghost predicate ConsistentRun(st: RunState, trace: seq<TestEvent>) {
    && 0 <= st.testsExecuted
    && (st.finishReported <==> Ended(trace))
    && (!st.startReported ==> st.testsExpected == 0 && st.testsExecuted == 0)
    && (RunStarted(trace) && !st.finishReported ==> st.startReported)
  }

  // ---------------------------------------------------------------------------
  // Lemmas: status codes and parameters

  /** `Status.valueOf` inverts `Status.value` on the known statuses. */
  lemma {:induction false} StatusOfValue(s: Status)
    requires s != UNKNOWN
    ensures StatusOf(Some(s.Value())) == s
  {
  }

  /** Kotlin's `toMap` keeps the value of the last pair with a given key, and
      has exactly the keys of the pairs. */
  lemma {:induction false} PairsToMapLastWins(pairs: seq<(string, string)>, i: nat)
    requires i < |pairs|
    requires forall j :: i < j < |pairs| ==> pairs[j].0 != pairs[i].0
    ensures pairs[i].0 in PairsToMap(pairs) && PairsToMap(pairs)[pairs[i].0] == pairs[i].1
    decreases |pairs|
  {
    if i < |pairs| - 1 {
      PairsToMapLastWins(pairs[..|pairs| - 1], i);
    }
  }

  lemma {:induction false} PairsToMapKeys(pairs: seq<(string, string)>, k: string)
    ensures k in PairsToMap(pairs) <==> exists i :: 0 <= i < |pairs| && pairs[i].0 == k
    decreases |pairs|
  {
    if |pairs| > 0 {
      var front := pairs[..|pairs| - 1];
      PairsToMapKeys(front, k);
      if k in PairsToMap(front) {
        var i :| 0 <= i < |front| && front[i].0 == k;
        assert pairs[i].0 == k;
      }
      if k != pairs[|pairs| - 1].0 && exists i :: 0 <= i < |pairs| && pairs[i].0 == k {
        var i :| 0 <= i < |pairs| && pairs[i].0 == k;
        assert front[i].0 == k;
      }
    }
  }

  /** A key `am instrument` writes: not empty, no white space in front, and
      no `=`, `:` or newline. */
  predicate PlainKey(k: string) {
    |k| > 0 && !IsWhitespace(k[0]) && '=' !in k && ':' !in k && '\n' !in k
  }

  /** A value on one line, without `=` or `:`, and without white space at its ends. */
  predicate PlainValue(v: string) {
    '=' !in v && ':' !in v && '\n' !in v && (v == [] || (!IsWhitespace(v[0]) && !IsWhitespace(v[|v| - 1])))
  }

  /** The `INSTRUMENTATION_STATUS: key=value` lines that report the given pairs. */
  function StatusLines(pairs: seq<(string, string)>): (lines: seq<string>)
    ensures |lines| == |pairs|
  {
    if |pairs| == 0 then []
    else [StatusSeparator + pairs[0].0 + "=" + pairs[0].1] + StatusLines(pairs[1..])
  }

  /** The text of one parameter without its separator. */
  function Assignment(pair: (string, string)): string {
    pair.0 + "=" + pair.1
  }

  /** The joined status lines with the leading separator taken off. */
  function Body(pairs: seq<(string, string)>): string
    requires |pairs| >= 1
  {
    if |pairs| == 1 then Assignment(pairs[0])
    else Assignment(pairs[0]) + "\n" + StatusSeparator + Body(pairs[1..])
  }

  /** What splitting the body on the separator gives: every assignment but the
      last keeps the newline that ended its line. */
  function Pieces(pairs: seq<(string, string)>): seq<string>
    requires |pairs| >= 1
  {
    if |pairs| == 1 then [Assignment(pairs[0])]
    else [Assignment(pairs[0]) + "\n"] + Pieces(pairs[1..])
  }

  predicate PlainPairs(pairs: seq<(string, string)>) {
    forall i :: 0 <= i < |pairs| ==> PlainKey(pairs[i].0) && PlainValue(pairs[i].1)
  }

  lemma {:induction false} PlainPairsTail(pairs: seq<(string, string)>)
    requires |pairs| >= 1 && PlainPairs(pairs)
    ensures PlainPairs(pairs[1..])
  {
    forall i | 0 <= i < |pairs| - 1
      ensures PlainKey(pairs[1..][i].0) && PlainValue(pairs[1..][i].1)
    {
      assert pairs[1..][i] == pairs[i + 1];
    }
  }

  lemma {:induction false} SeparatorHasNoNewline(m: nat)
    requires m < |StatusSeparator|
    ensures StatusSeparator[m] != '\n'
  {
  }

  /** A line without `:` or newline, followed by a newline and the separator:
      the first occurrence of the separator is the one after the newline. */
  lemma {:induction false} SeparatorAfterLine(a: string, y: string)
    requires ':' !in a && '\n' !in a
    ensures OccursAt(a + "\n" + StatusSeparator + y, StatusSeparator, |a| + 1)
    ensures forall j: nat :: j < |a| + 1 ==> !OccursAt(a + "\n" + StatusSeparator + y, StatusSeparator, j)
  {
    var D := StatusSeparator;
    var s := a + "\n" + D + y;
    assert s[|a| + 1..|a| + 1 + |D|] == D;
    forall j: nat | j < |a| + 1 ensures !OccursAt(s, D, j) {
      if j + |D| <= |s| {
        var w := s[j..j + |D|];
        if j + 22 < |a| {
          assert w[22] == a[j + 22];
          assert w[22] != D[22];
        } else {
          var m := |a| - j;
          assert w[m] == '\n';
          SeparatorHasNoNewline(m);
        }
      }
    }
  }

  /** Splitting a line, a newline and the separator off the front of a text. */
  lemma {:induction false} SplitAfterLine(a: string, y: string)
    requires ':' !in a && '\n' !in a
    ensures Split(a + "\n" + StatusSeparator + y, StatusSeparator) == [a + "\n"] + Split(y, StatusSeparator)
  {
    var s := a + "\n" + StatusSeparator + y;
    SeparatorAfterLine(a, y);
    SplitAtFirst(s, StatusSeparator, |a| + 1);
    assert s[..|a| + 1] == a + "\n";
    assert s[|a| + 1 + |StatusSeparator|..] == y;
  }

  /** Text without `:` does not contain the separator. */
  lemma {:induction false} NoSeparatorWithoutColon(a: string)
    requires ':' !in a
    ensures !Contains(a, StatusSeparator)
  {
    var D := StatusSeparator;
    forall j: nat ensures !OccursAt(a, D, j) {
      if j + |D| <= |a| {
        assert a[j..j + |D|][22] == a[j + 22];
      }
    }
  }

  lemma {:induction false} SplitBody(pairs: seq<(string, string)>)
    requires |pairs| >= 1 && PlainPairs(pairs)
    ensures Split(Body(pairs), StatusSeparator) == Pieces(pairs)
    decreases |pairs|
  {
    var a := Assignment(pairs[0]);
    assert ':' !in a && '\n' !in a;
    if |pairs| == 1 {
      NoSeparatorWithoutColon(a);
      SplitWithout(a, StatusSeparator);
    } else {
      var y := Body(pairs[1..]);
      assert Body(pairs) == a + "\n" + StatusSeparator + y;
      SplitAfterLine(a, y);
      PlainPairsTail(pairs);
      SplitBody(pairs[1..]);
      assert Pieces(pairs) == [a + "\n"] + Pieces(pairs[1..]);
    }
  }

  lemma {:induction false} JoinStatusLines(pairs: seq<(string, string)>)
    requires |pairs| >= 1
    ensures Join(StatusLines(pairs), "\n") == StatusSeparator + Body(pairs)
    decreases |pairs|
  {
    var D, a := StatusSeparator, Assignment(pairs[0]);
    var lines := StatusLines(pairs);
    assert lines[0] == D + a;
    if |pairs| > 1 {
      var rest := StatusLines(pairs[1..]);
      assert lines[1..] == rest;
      assert Join(lines, "\n") == (D + a) + "\n" + Join(rest, "\n");
      JoinStatusLines(pairs[1..]);
      assert (D + a) + "\n" + (D + Body(pairs[1..])) == D + (a + "\n" + D + Body(pairs[1..]));
    }
  }

  lemma {:induction false} StatusLinesNonEmpty(pairs: seq<(string, string)>)
    ensures NonEmptyLines(StatusLines(pairs)) == StatusLines(pairs)
    decreases |pairs|
  {
    if |pairs| > 0 {
      StatusLinesNonEmpty(pairs[1..]);
      assert StatusLines(pairs)[1..] == StatusLines(pairs[1..]);
    }
  }

  lemma {:induction false} AssignmentEnds(pair: (string, string))
    requires PlainKey(pair.0) && PlainValue(pair.1)
    ensures var a := Assignment(pair); |a| > 0 && !IsWhitespace(a[0]) && !IsWhitespace(a[|a| - 1])
  {
    var a := Assignment(pair);
    assert a[0] == pair.0[0];
    if pair.1 == [] {
      assert a[|a| - 1] == '=';
    } else {
      assert a[|a| - 1] == pair.1[|pair.1| - 1];
    }
  }

  lemma {:induction false} SplitAssignment(pair: (string, string))
    requires '=' !in pair.0 && '=' !in pair.1
    ensures Split(Assignment(pair), "=") == [pair.0, pair.1]
  {
    assert Join([pair.0, pair.1], ['=']) == Assignment(pair);
    JoinThenSplit([pair.0, pair.1], '=');
  }

  /** A plain assignment, with or without its newline, gives back its pair. */
  lemma {:induction false} EntryOfAssignment(pair: (string, string), newline: bool)
    requires PlainKey(pair.0) && PlainValue(pair.1)
    ensures Entry(Assignment(pair) + (if newline then "\n" else "")) == Some(pair)
  {
    var piece := Assignment(pair) + (if newline then "\n" else "");
    TrimAssignment(pair, newline);
    assert Split(Trim(piece), "=") == [pair.0, pair.1] by {
      SplitAssignment(pair);
    }
    assert Trim(pair.1) == pair.1 by {
      TrimClean(pair.1);
    }
  }

  /** Trimming a plain assignment drops its newline and nothing else. */
  lemma {:induction false} TrimAssignment(pair: (string, string), newline: bool)
    requires PlainKey(pair.0) && PlainValue(pair.1)
    ensures Trim(Assignment(pair) + (if newline then "\n" else "")) == Assignment(pair)
  {
    var a := Assignment(pair);
    AssignmentEnds(pair);
    if newline {
      TrimDropsNewline(a);
    } else {
      assert a + "" == a;
      TrimClean(a);
    }
  }

  lemma {:induction false} EntriesOfPieces(pairs: seq<(string, string)>)
    requires |pairs| >= 1 && PlainPairs(pairs)
    ensures Entries(Pieces(pairs)) == pairs
    decreases |pairs|
  {
    var ps := Pieces(pairs);
    FirstPieceEntry(pairs);
    if |pairs| > 1 {
      assert Entries(ps[1..]) == pairs[1..] by {
        assert ps[1..] == Pieces(pairs[1..]);
        PlainPairsTail(pairs);
        EntriesOfPieces(pairs[1..]);
      }
    } else {
      assert ps[1..] == [] && pairs[1..] == [];
    }
    assert Entries(ps) == [pairs[0]] + Entries(ps[1..]);
  }

  lemma {:induction false} FirstPieceEntry(pairs: seq<(string, string)>)
    requires |pairs| >= 1 && PlainPairs(pairs)
    ensures Entry(Pieces(pairs)[0]) == Some(pairs[0])
  {
    assert Pieces(pairs)[0] == Assignment(pairs[0]) + (if |pairs| > 1 then "\n" else "");
    EntryOfAssignment(pairs[0], |pairs| > 1);
  }

  /** A text that starts with the separator splits into an empty piece first. */
  lemma {:induction false} SplitLeadingSeparator(y: string)
    ensures Split(StatusSeparator + y, StatusSeparator) == [""] + Split(y, StatusSeparator)
  {
    var s := StatusSeparator + y;
    assert OccursAt(s, StatusSeparator, 0);
    SplitAtFirst(s, StatusSeparator, 0);
    assert s[|StatusSeparator|..] == y;
  }

  /** `toMap` reads back the parameters of well-formed status lines: a block
      made of `INSTRUMENTATION_STATUS: key=value` lines gives the map of those
      pairs, the last one winning for a repeated key. */
  lemma {:induction false} ToMapOfStatusLines(pairs: seq<(string, string)>)
    requires PlainPairs(pairs)
    ensures ToMap(StatusLines(pairs)) == PairsToMap(pairs)
  {
    var lines := StatusLines(pairs);
    assert NonEmptyLines(lines) == lines by {
      StatusLinesNonEmpty(pairs);
    }
    if |pairs| == 0 {
      EntriesOfNoText();
    } else {
      EntriesOfStatusText(pairs);
    }
  }

  /** No status lines: the empty text gives no entries. */
  lemma {:induction false} EntriesOfNoText()
    ensures Entries(Split(Join([], "\n"), StatusSeparator)) == []
  {
    assert Split("", StatusSeparator) == [""];
    EmptyPieceNoEntry();
    assert [""][1..] == [];
  }

  lemma {:induction false} EmptyPieceNoEntry()
    ensures Entry("") == None
  {
    assert Split("", "=") == [""];
  }

  /** The pieces of well-formed status lines give back their pairs. */
  lemma {:induction false} EntriesOfStatusText(pairs: seq<(string, string)>)
    requires |pairs| >= 1 && PlainPairs(pairs)
    ensures Entries(Split(Join(StatusLines(pairs), "\n"), StatusSeparator)) == pairs
  {
    var pieces := Split(Join(StatusLines(pairs), "\n"), StatusSeparator);
    SplitStatusLines(pairs);
    EmptyPieceNoEntry();
    assert pieces[1..] == Pieces(pairs);
    EntriesOfPieces(pairs);
  }

  /** Splitting joined status lines on the separator gives an empty piece,
      then the assignments, each but the last with its newline. */
  lemma {:induction false} SplitStatusLines(pairs: seq<(string, string)>)
    requires |pairs| >= 1 && PlainPairs(pairs)
    ensures Split(Join(StatusLines(pairs), "\n"), StatusSeparator) == [""] + Pieces(pairs)
  {
    JoinStatusLines(pairs);
    SplitLeadingSeparator(Body(pairs));
    SplitBody(pairs);
  }

  // ---------------------------------------------------------------------------
  // Lemmas: cutting atoms off the buffer

  /** Joined lines with the text of a non-empty front taken off: a newline,
      then the remaining lines, which split back apart. */
  lemma {:induction false} JoinedRest(atom: seq<string>, rest: seq<string>)
    requires |atom| >= 1 && |rest| >= 1
    requires forall i :: 0 <= i < |rest| ==> '\n' !in rest[i]
    ensures var text := Join(atom + rest, "\n");
      var n := |Join(atom, "\n")|;
      && n <= |text|
      && text[..n] == Join(atom, "\n")
      && Split(text[n..], "\n") == [""] + rest
  {
    JoinAppend(atom, rest, "\n");
    var parts := [""] + rest;
    assert parts[1..] == rest;
    assert Join(parts, "\n") == "\n" + Join(rest, "\n");
    forall i | 0 <= i < |parts| ensures '\n' !in parts[i] {
      if i > 0 {
        assert parts[i] == rest[i - 1];
      }
    }
    JoinThenSplit(parts, '\n');
  }

  /** What `transform` deletes is exactly the text of the atom's lines without
      the newline after the last one; what stays behind reads as one empty
      line followed by the lines not yet parsed. */
  lemma {:induction false} CutAtom(buffer: string, k: nat)
    requires k < |Lines(buffer)|
    ensures var lines := Lines(buffer);
      var n := ConsumedLength(lines[..k + 1]);
      && n <= |buffer|
      && buffer[..n] == Join(lines[..k + 1], "\n")
      && Lines(buffer[n..]) == [""] + lines[k + 1..]
  {
    var lines := Lines(buffer);
    var atom, rest := lines[..k + 1], lines[k + 1..];
    assert Join(lines, "\n") == buffer by {
      SplitThenJoin(buffer, "\n");
    }
    assert atom + rest == lines;
    if rest == [] {
      assert atom == lines;
      assert ConsumedLength(atom) == |buffer|;
      assert buffer[|buffer|..] == "";
      assert Lines("") == [""] by {
        assert Split("", "\n") == [""];
      }
    } else {
      JoinedRest(atom, rest);
    }
  }

  /** The empty line that `transform` leaves at the front of the buffer never
      ends an atom. */
  lemma {:induction false} FirstTerminatorAfterEmptyLine(lines: seq<string>)
    ensures FirstTerminator([""] + lines) ==
      match FirstTerminator(lines) case None => None case Some(k) => Some(k + 1)
  {
    assert !IsTerminator("");
    assert ([""] + lines)[1..] == lines;
  }

  lemma {:induction false} RunTimeAfterLine(x: string, atom: seq<string>)
    requires !StartsWith(x, TimePrefix)
    ensures RunTime([x] + atom) == RunTime(atom)
    decreases |atom|
  {
    var whole := [x] + atom;
    if atom == [] {
      assert whole[..0] == [];
    } else {
      assert whole[|whole| - 1] == atom[|atom| - 1];
      assert whole[..|whole| - 1] == [x] + atom[..|atom| - 1];
      RunTimeAfterLine(x, atom[..|atom| - 1]);
    }
  }

  /** An atom with an empty line in front parses as the atom itself: the
      newline `transform` leaves behind changes neither the state nor the
      events of the next block. */
  lemma {:induction false} LeadingEmptyLineIgnored(st: RunState, atom: seq<string>)
    requires |atom| >= 1
    ensures ParseAtom(st, [""] + atom) == ParseAtom(st, atom)
  {
    var last := atom[|atom| - 1];
    if StartsWith(last, StatusCodeToken) {
      StatusAtomAfterEmptyLine(st, atom);
    } else if StartsWith(last, CodeToken) {
      CodeAtomAfterEmptyLine(st, atom);
    } else {
      OtherAtomAfterEmptyLine(st, atom);
    }
  }

  lemma {:induction false} OtherAtomAfterEmptyLine(st: RunState, atom: seq<string>)
    requires |atom| >= 1 && !StartsWith(atom[|atom| - 1], StatusCodeToken) && !StartsWith(atom[|atom| - 1], CodeToken)
    ensures ParseAtom(st, [""] + atom) == ParseAtom(st, atom)
  {
    var whole := [""] + atom;
    assert whole[|whole| - 1] == atom[|atom| - 1];
  }

  lemma {:induction false} StatusAtomAfterEmptyLine(st: RunState, atom: seq<string>)
    requires |atom| >= 1 && StartsWith(atom[|atom| - 1], StatusCodeToken)
    ensures ParseAtom(st, [""] + atom) == ParseAtom(st, atom)
  {
    var whole := [""] + atom;
    var last := atom[|atom| - 1];
    var front := atom[..|atom| - 1];
    assert ParseAtom(st, whole) == StatusBlock(st, last, [""] + front) by {
      assert whole[|whole| - 1] == last;
      assert whole[..|whole| - 1] == [""] + front;
    }
    assert ParseAtom(st, atom) == StatusBlock(st, last, front);
    assert StatusBlock(st, last, [""] + front) == StatusBlock(st, last, front) by {
      ToMapIgnoresEmptyLine(front);
      StatusBlockSameParams(st, last, [""] + front, front);
    }
  }

  lemma {:induction false} StatusBlockSameParams(st: RunState, last: string, a: seq<string>, b: seq<string>)
    requires ToMap(a) == ToMap(b)
    ensures StatusBlock(st, last, a) == StatusBlock(st, last, b)
  {
    if |last| >= |StatusCodeToken| + 1 {
      var status := StatusOf(CodeValue(last, StatusCodeToken));
      assert StatusBlock(st, last, a) == StatusReport(st, status, ToMap(a));
      assert StatusBlock(st, last, b) == StatusReport(st, status, ToMap(b));
    }
  }

  lemma {:induction false} CodeAtomAfterEmptyLine(st: RunState, atom: seq<string>)
    requires |atom| >= 1 && !StartsWith(atom[|atom| - 1], StatusCodeToken) && StartsWith(atom[|atom| - 1], CodeToken)
    ensures ParseAtom(st, [""] + atom) == ParseAtom(st, atom)
  {
    var whole := [""] + atom;
    var last := atom[|atom| - 1];
    assert whole[|whole| - 1] == last;
    ParseCodeAtom(st, whole);
    ParseCodeAtom(st, atom);
    CodeBlockIgnoresEmptyLine(st.(finished := true), last, atom);
  }

  lemma {:induction false} ParseCodeAtom(st: RunState, atom: seq<string>)
    requires |atom| >= 1 && !StartsWith(atom[|atom| - 1], StatusCodeToken) && StartsWith(atom[|atom| - 1], CodeToken)
    ensures ParseAtom(st, atom) == CodeBlock(st.(finished := true), atom[|atom| - 1], atom)
  {
  }

  lemma {:induction false} ToMapIgnoresEmptyLine(lines: seq<string>)
    ensures ToMap([""] + lines) == ToMap(lines)
  {
    assert ([""] + lines)[1..] == lines;
    assert NonEmptyLines([""] + lines) == NonEmptyLines(lines);
  }

  lemma {:induction false} CodeBlockIgnoresEmptyLine(st: RunState, last: string, atom: seq<string>)
    ensures CodeBlock(st, last, [""] + atom) == CodeBlock(st, last, atom)
  {
    assert !StartsWith("", TimePrefix);
    RunTimeAfterLine("", atom);
  }

  /** The last `Time:` line decides the run time: lines before it do not matter. */
  lemma {:induction false} RunTimeLastWins(before: seq<string>, atom: seq<string>, i: nat)
    requires i < |atom| && StartsWith(atom[i], TimePrefix)
    ensures RunTime(before + atom) == RunTime(atom)
    decreases |atom|
  {
    var whole := before + atom;
    assert whole[|whole| - 1] == atom[|atom| - 1];
    if !StartsWith(atom[|atom| - 1], TimePrefix) {
      assert whole[..|whole| - 1] == before + atom[..|atom| - 1];
      RunTimeLastWins(before, atom[..|atom| - 1], i);
    }
  }

  /** Without a `Time:` line the run time is 0. */
  lemma {:induction false} RunTimeWithoutTimeLine(atom: seq<string>)
    requires forall i :: 0 <= i < |atom| ==> !StartsWith(atom[i], TimePrefix)
    ensures RunTime(atom) == 0
    decreases |atom|
  {
    if atom != [] {
      RunTimeWithoutTimeLine(atom[..|atom| - 1]);
    }
  }

  // ---------------------------------------------------------------------------
  // Lemmas: status blocks

  /** There are test events exactly when the block names its test, is not
      IN_PROGRESS, and carries a `stack` where the status needs one; all of
      them are about that one test; the group ends with `TestEnded` exactly
      when the status counts the test as executed, and no other event of it is
      a `TestEnded`; a failure carries the block's `stack`. */
  lemma {:induction false} TestEventsAboutTest(status: Status, params: map<string, string>)
    requires status != UNKNOWN
    ensures var events := TestEvents(status, params);
      && (events != [] <==>
            TestId(params).Some? && status != IN_PROGRESS && (NeedsStack(status) ==> "stack" in params))
      && (forall i :: 0 <= i < |events| ==> events[i].ConcernsTest() && Some(events[i].id) == TestId(params))
      && (events != [] ==> (events[|events| - 1].TestEnded? <==> Completes(status)))
      && (forall i :: 0 <= i < |events| - 1 ==> !events[i].TestEnded?)
      && (forall i :: 0 <= i < |events| && (events[i].TestFailed? || events[i].TestAssumptionFailed?) ==>
            "stack" in params && events[i].stackTrace == params["stack"])
      && |events| <= 3
  {
  }

  /** Which events each status gives, in order: START gives `TestStarted`;
      IGNORED gives `TestStarted`, `TestIgnored`, `TestEnded`; ERROR and
      FAILURE give `TestFailed`, `TestEnded`; ASSUMPTION_FAILURE gives
      `TestAssumptionFailed`, `TestEnded`; SUCCESS gives `TestEnded`. Every
      `TestEnded` carries no metrics. With `TestEventsAboutTest` this fixes
      the whole list. */
  lemma {:induction false} TestEventsKinds(status: Status, params: map<string, string>)
    requires status != UNKNOWN
    ensures var events := TestEvents(status, params);
      && (events != [] ==> (events[0].TestStarted? <==> status == START || status == IGNORED))
      && (events != [] && status == IGNORED ==> |events| == 3 && events[1].TestIgnored?)
      && (events != [] && (status == ERROR || status == FAILURE) ==> |events| == 2 && events[0].TestFailed?)
      && (events != [] && status == ASSUMPTION_FAILURE ==> |events| == 2 && events[0].TestAssumptionFailed?)
      && (events != [] && (status == START || status == SUCCESS) ==> |events| == 1)
      && (events != [] ==> (events[|events| - 1].TestEnded? <==> status != START))
      && ((exists i :: 0 <= i < |events| && events[i].TestIgnored?) <==> events != [] && status == IGNORED)
      && ((exists i :: 0 <= i < |events| && events[i].TestFailed?) <==> events != [] && (status == ERROR || status == FAILURE))
      && ((exists i :: 0 <= i < |events| && events[i].TestAssumptionFailed?) <==> events != [] && status == ASSUMPTION_FAILURE)
      && (forall i :: 0 <= i < |events| && events[i].TestEnded? ==> events[i].metrics == map[])
  {
    var events := TestEvents(status, params);
    if events != [] {
      assert events[0] in events;
      assert events[|events| - 1] in events;
    }
  }

  /** What a successful status block hands out: the run start, when this
      block reports it, followed by the test's events. */
  lemma {:induction false} StatusReportEmits(st: RunState, status: Status, params: map<string, string>)
    ensures var (next, reply) := StatusReport(st, status, params);
      && next.finishReported == st.finishReported
      && next.finished == st.finished
      && (reply.Success? ==>
            && status != UNKNOWN
            && Emitted(reply) == (if !st.startReported && "numtests" in params then [TestRunStartedEvent(next.testsExpected)] else [])
                 + TestEvents(status, params))
  {
  }

  /** The first status block starts the run. A `TestRunStartedEvent` is
      reported exactly when the run had not started and the block has a
      `numtests` parameter; it comes first and carries the count, which becomes
      the number of tests expected. Only a malformed `numtests` stops the
      block before the run is marked started, and then nothing changes. */
  lemma {:induction false} StatusReportStartsRun(st: RunState, status: Status, params: map<string, string>)
    ensures var (next, reply) := StatusReport(st, status, params);
      && (reply.Failure? && reply.error.NumberFormat? <==>
            !st.startReported && "numtests" in params && ToIntOrNull(params["numtests"]).None?)
      && (reply.Failure? && reply.error.NumberFormat? ==> next == st)
      && (!(reply.Failure? && reply.error.NumberFormat?) ==> next.startReported)
      && (reply.Success? ==> (RunStarted(Emitted(reply)) <==> !st.startReported && "numtests" in params))
      && (reply.Success? && RunStarted(Emitted(reply)) ==>
            && Emitted(reply)[0] == TestRunStartedEvent(next.testsExpected)
            && ToIntOrNull(params["numtests"]) == Some(next.testsExpected))
  {
    var (next, reply) := StatusReport(st, status, params);
    StatusReportEmits(st, status, params);
    if reply.Success? {
      var tests := TestEvents(status, params);
      TestEventsAboutTest(status, params);
      assert forall i :: 0 <= i < |tests| ==> !tests[i].TestRunStartedEvent?;
      if !st.startReported && "numtests" in params {
        assert Emitted(reply)[0].TestRunStartedEvent?;
      } else {
        assert Emitted(reply) == tests;
      }
    }
  }

  /** What a code block does, once its code is read: -1 (`ERROR`) marks the
      end reported and hands out `TestRunEnded` with the block's run time; any
      other code, or text that is not a number, changes nothing and returns
      null; a line too short for `substring` throws. */
  lemma {:induction false} CodeBlockOutcome(st: RunState, last: string, atom: seq<string>)
    ensures |last| < |CodeToken| + 1 ==> CodeBlock(st, last, atom) == (st, Failure(StringIndexOutOfBounds))
    ensures |last| >= |CodeToken| + 1 && CodeValue(last, CodeToken) == Some(-1) ==>
      CodeBlock(st, last, atom) == (st.(finishReported := true), Success(Some([TestRunEnded(RunTime(atom), map[])])))
    ensures |last| >= |CodeToken| + 1 && CodeValue(last, CodeToken) != Some(-1) ==>
      CodeBlock(st, last, atom) == (st, Success(None))
  {
  }

  /** A code line as `am instrument` writes it, `<token>: <code>`, is long
      enough for `substring` and reads back as its code: the space after the
      colon is trimmed before `toIntOrNull`. */
  lemma {:induction false} CodeLineValue(token: string, c: int)
    requires IntMin <= c <= IntMax
    ensures |token + ": " + IntToString(c)| >= |token| + 1
    ensures CodeValue(token + ": " + IntToString(c), token) == Some(c)
  {
    var text := IntToString(c);
    var line := token + ": " + text;
    assert line[|token| + 1..] == " " + text;
    IntToStringEnds(c);
    TrimDropsSpace(text);
    IntToStringRoundTrip(c);
  }

  /** A status code line after `INSTRUMENTATION_STATUS: key=value` lines: the
      block reports the status of the written code with the written pairs as
      its parameters. */
  lemma {:induction false} StatusAtomOfLines(st: RunState, pairs: seq<(string, string)>, c: int)
    requires PlainPairs(pairs) && IntMin <= c <= IntMax
    ensures var atom := StatusLines(pairs) + [StatusCodeToken + ": " + IntToString(c)];
      ParseAtom(st, atom) == StatusReport(st, StatusOf(Some(c)), PairsToMap(pairs))
  {
    var last := StatusCodeToken + ": " + IntToString(c);
    var atom := StatusLines(pairs) + [last];
    assert atom[|atom| - 1] == last && atom[..|atom| - 1] == StatusLines(pairs);
    assert last[..|StatusCodeToken|] == StatusCodeToken;
    CodeLineValue(StatusCodeToken, c);
    ToMapOfStatusLines(pairs);
  }

  /** An `INSTRUMENTATION_CODE: <code>` line ends the stream: -1 reports the
      end of the run with the block's time, any other code reports nothing. */
  lemma {:induction false} CodeAtomOfLine(st: RunState, lines: seq<string>, c: int)
    requires IntMin <= c <= IntMax
    ensures var atom := lines + [CodeToken + ": " + IntToString(c)];
      ParseAtom(st, atom)
        == if c == -1 then (st.(finished := true, finishReported := true), Success(Some([TestRunEnded(RunTime(atom), map[])])))
           else (st.(finished := true), Success(None))
  {
    var last := CodeToken + ": " + IntToString(c);
    var atom := lines + [last];
    assert atom[|atom| - 1] == last;
    assert last[..|CodeToken|] == CodeToken;
    assert last[16] != StatusCodeToken[16];
    assert !StartsWith(last, StatusCodeToken);
    CodeLineValue(CodeToken, c);
    CodeBlockOutcome(st.(finished := true), last, atom);
  }

  /** The three lines `am instrument -r` writes for a passing test. */
  const PassingClassLine: string := "INSTRUMENTATION_STATUS: class=C"
  const PassingTestLine: string := "INSTRUMENTATION_STATUS: test=t"
  const PassingCodeLine: string := "INSTRUMENTATION_STATUS_CODE: 0"

  /** In a run that has started, the block of a passing test counts the test
      and reports its end. */
  lemma {:induction false} PassingTestBlock(st: RunState)
    requires st.startReported
    ensures ParseAtom(st, [PassingClassLine, PassingTestLine, PassingCodeLine])
      == (st.(testsExecuted := st.testsExecuted + 1), Success(Some([TestEnded(TestIdentifier("C", "t"), map[])])))
  {
    var pairs := PassingPairs();
    var params := map["class" := "C", "test" := "t"];
    var atom := [PassingClassLine, PassingTestLine, PassingCodeLine];
    PassingLines();
    assert atom == StatusLines(pairs) + [StatusCodeToken + ": " + IntToString(0)];
    StatusAtomOfLines(st, pairs, 0);
    PassingParams();
    PassingReport(st, params);
  }

  function PassingPairs(): seq<(string, string)> {
    [("class", "C"), ("test", "t")]
  }

  lemma {:induction false} PassingLines()
    ensures PlainPairs(PassingPairs())
    ensures StatusLines(PassingPairs()) == [PassingClassLine, PassingTestLine]
    ensures StatusCodeToken + ": " + IntToString(0) == PassingCodeLine
  {
    var pairs := PassingPairs();
    assert PlainKey("class") && PlainKey("test") && PlainValue("C") && PlainValue("t");
    var rest := [("test", "t")];
    assert pairs[1..] == rest && rest[1..] == [];
    assert StatusSeparator + "class" + "=" + "C" == PassingClassLine;
    assert StatusSeparator + "test" + "=" + "t" == PassingTestLine;
    assert StatusLines(rest) == [PassingTestLine] + StatusLines([]);
    assert StatusLines(pairs) == [PassingClassLine] + StatusLines(rest);
    assert IntToString(0) == "0";
  }

  lemma {:induction false} PassingParams()
    ensures PairsToMap(PassingPairs()) == map["class" := "C", "test" := "t"]
  {
    var pairs := PassingPairs();
    assert pairs[..1] == [("class", "C")] && pairs[..1][..0] == [];
  }

  lemma {:induction false} PassingReport(st: RunState, params: map<string, string>)
    requires st.startReported && params == map["class" := "C", "test" := "t"]
    ensures StatusReport(st, SUCCESS, params)
      == (st.(testsExecuted := st.testsExecuted + 1), Success(Some([TestEnded(TestIdentifier("C", "t"), map[])])))
  {
    var id := TestIdentifier("C", "t");
    assert TestId(params) == Some(id);
    assert RunStartReport(st, params) == Success((st, []));
    assert TestEvents(SUCCESS, params) == [TestEnded(id, map[])];
    assert [] + [TestEnded(id, map[])] == [TestEnded(id, map[])];
  }

  /** A status block counts a test as executed exactly when its status ends
      the test, whether or not it reports events; it reports at most one
      `TestEnded`, and only for a status that is counted; and every event
      after the run start is about the block's test. */
  lemma {:induction false} StatusReportCountsTests(st: RunState, status: Status, params: map<string, string>)
    ensures var (next, reply) := StatusReport(st, status, params);
      var events := Emitted(reply);
      && (reply.Success? ==> next.testsExecuted == st.testsExecuted + (if Completes(status) then 1 else 0))
      && (reply.Failure? ==> next.testsExecuted == st.testsExecuted)
      && (forall i :: 0 <= i < |events| && events[i].TestEnded? ==> Completes(status))
      && (forall i, j :: 0 <= i < j < |events| ==> !(events[i].TestEnded? && events[j].TestEnded?))
      && (forall i :: 0 <= i < |events| && !events[i].TestRunStartedEvent? ==>
            events[i].ConcernsTest() && Some(events[i].id) == TestId(params))
  {
    StatusReportExecuted(st, status, params);
    StatusReportEventsAboutTest(st, status, params);
  }

  lemma {:induction false} StatusReportExecuted(st: RunState, status: Status, params: map<string, string>)
    ensures var (next, reply) := StatusReport(st, status, params);
      && (reply.Success? ==> next.testsExecuted == st.testsExecuted + (if Completes(status) then 1 else 0))
      && (reply.Failure? ==> next.testsExecuted == st.testsExecuted)
  {
  }

  lemma {:induction false} StatusReportEventsAboutTest(st: RunState, status: Status, params: map<string, string>)
    ensures var (next, reply) := StatusReport(st, status, params);
      var events := Emitted(reply);
      && (forall i :: 0 <= i < |events| && events[i].TestEnded? ==> Completes(status))
      && (forall i, j :: 0 <= i < j < |events| ==> !(events[i].TestEnded? && events[j].TestEnded?))
      && (forall i :: 0 <= i < |events| && !events[i].TestRunStartedEvent? ==>
            events[i].ConcernsTest() && Some(events[i].id) == TestId(params))
  {
    var (next, reply) := StatusReport(st, status, params);
    StatusReportEmits(st, status, params);
    if reply.Success? {
      TestEventsAboutTest(status, params);
      var start := if !st.startReported && "numtests" in params then [TestRunStartedEvent(next.testsExpected)] else [];
      StartThenTestEvents(start, TestEvents(status, params), Completes(status), TestId(params));
    }
  }

  /** Run-start events followed by one test's events: at most one of them is
      a `TestEnded`, the last, and every other event is about that test. */
  lemma {:induction false} StartThenTestEvents(start: seq<TestEvent>, tests: seq<TestEvent>, completes: bool, id: Option<TestIdentifier>)
    requires forall i :: 0 <= i < |start| ==> start[i].TestRunStartedEvent?
    requires forall i :: 0 <= i < |tests| ==> tests[i].ConcernsTest() && Some(tests[i].id) == id
    requires tests != [] ==> (tests[|tests| - 1].TestEnded? <==> completes)
    requires forall i :: 0 <= i < |tests| - 1 ==> !tests[i].TestEnded?
    ensures var events := start + tests;
      && (forall i :: 0 <= i < |events| && events[i].TestEnded? ==> completes)
      && (forall i, j :: 0 <= i < j < |events| ==> !(events[i].TestEnded? && events[j].TestEnded?))
      && (forall i :: 0 <= i < |events| && !events[i].TestRunStartedEvent? ==>
            events[i].ConcernsTest() && Some(events[i].id) == id)
  {
    var events := start + tests;
    assert forall i :: 0 <= i < |start| ==> events[i] == start[i];
    assert forall i :: |start| <= i < |events| ==> events[i] == tests[i - |start|];
  }

  /** An unknown status code is a crash that still marks the run started. */
  lemma {:induction false} UnknownStatusThrows(st: RunState, params: map<string, string>)
    requires !(!st.startReported && "numtests" in params && ToIntOrNull(params["numtests"]).None?)
    ensures StatusReport(st, UNKNOWN, params).1 == Failure(NotImplemented)
    ensures StatusReport(st, UNKNOWN, params).0.startReported
  {
  }

  // ---------------------------------------------------------------------------
  // Lemmas: the run-state invariant

  lemma {:induction false} TraceAppend(trace: seq<TestEvent>, events: seq<TestEvent>)
    ensures Ended(trace + events) <==> Ended(trace) || Ended(events)
    ensures RunStarted(trace + events) <==> RunStarted(trace) || RunStarted(events)
  {
    var all := trace + events;
    assert forall i :: 0 <= i < |trace| ==> all[i] == trace[i];
    assert forall i :: 0 <= i < |events| ==> all[|trace| + i] == events[i];
    if Ended(all) {
      var i :| 0 <= i < |all| && all[i].TestRunEnded?;
      if i >= |trace| {
        assert events[i - |trace|] == all[i];
      }
    }
    if RunStarted(all) {
      var i :| 0 <= i < |all| && all[i].TestRunStartedEvent?;
      if i >= |trace| {
        assert events[i - |trace|] == all[i];
      }
    }
  }

  /** The parser starts out consistent with an empty trace. */
  lemma {:induction false} InitialRunConsistent()
    ensures ConsistentRun(InitialRun, [])
    ensures CloseRun(InitialRun).1 == Some([TestRunFailed(NoTestResults)])
  {
  }

  lemma {:induction false} StatusReportKeepsRunConsistent(st: RunState, trace: seq<TestEvent>, status: Status, params: map<string, string>)
    requires ConsistentRun(st, trace)
    ensures var (next, reply) := StatusReport(st, status, params);
      ConsistentRun(next, trace + Emitted(reply))
  {
    var (next, reply) := StatusReport(st, status, params);
    var events := Emitted(reply);
    StatusReportStartsRun(st, status, params);
    StatusReportCountsTests(st, status, params);
    StatusReportEmits(st, status, params);
    TraceAppend(trace, events);
    assert !Ended(events);
  }

  lemma {:induction false} CodeBlockKeepsRunConsistent(st: RunState, trace: seq<TestEvent>, last: string, atom: seq<string>)
    requires ConsistentRun(st, trace)
    ensures var (next, reply) := CodeBlock(st, last, atom);
      ConsistentRun(next, trace + Emitted(reply))
  {
    var (next, reply) := CodeBlock(st, last, atom);
    TraceAppend(trace, Emitted(reply));
    if Emitted(reply) != [] {
      assert Emitted(reply)[0].TestRunEnded?;
    }
  }

  /** Parsing an atom keeps the run state consistent with the events reported. */
  lemma {:induction false} ParseKeepsRunConsistent(st: RunState, trace: seq<TestEvent>, atom: seq<string>)
    requires |atom| >= 1 && ConsistentRun(st, trace)
    ensures var (next, reply) := ParseAtom(st, atom);
      ConsistentRun(next, trace + Emitted(reply))
  {
    var last := atom[|atom| - 1];
    if StartsWith(last, StatusCodeToken) {
      if |last| >= |StatusCodeToken| + 1 {
        StatusReportKeepsRunConsistent(st, trace, StatusOf(CodeValue(last, StatusCodeToken)), ToMap(atom[..|atom| - 1]));
      } else {
        assert trace + [] == trace;
      }
    } else if StartsWith(last, CodeToken) {
      CodeBlockKeepsRunConsistent(st.(finished := true), trace, last, atom);
    } else {
      assert trace + [] == trace;
    }
  }

  // ---------------------------------------------------------------------------
  // Lemmas: closing the run

  /** Closing keeps the run state consistent with the events reported. */
  lemma {:induction false} CloseKeepsRunConsistent(st: RunState, trace: seq<TestEvent>)
    requires ConsistentRun(st, trace)
    ensures var (next, events) := CloseRun(st);
      ConsistentRun(next, trace + (if events.Some? then events.value else []))
  {
    var (next, events) := CloseRun(st);
    var added := if events.Some? then events.value else [];
    TraceAppend(trace, added);
    if added != [] {
      assert added[|added| - 1].TestRunEnded? || added[|added| - 1].TestRunFailed?;
      if next.finishReported {
        assert Ended(added) by {
          assert added[|added| - 1].TestRunEnded?;
        }
      } else {
        assert added[0].TestRunFailed? && |added| == 1;
      }
    }
  }

  /** On a consistent run, `close` says nothing exactly when the end of the run
      was already reported; otherwise it reports one terminal event, last:
      the end of the run, or a failure when no result arrived or tests are
      missing. */
  lemma {:induction false} CloseAlwaysSignals(st: RunState, trace: seq<TestEvent>)
    requires ConsistentRun(st, trace)
    ensures var (next, events) := CloseRun(st);
      && (events.None? <==> Ended(trace))
      && (events.Some? ==> |events.value| >= 1)
      && (events.Some? ==> var e := events.value[|events.value| - 1]; e.TestRunEnded? || e.TestRunFailed?)
      && (events.Some? ==> (events.value[|events.value| - 1].TestRunFailed? <==>
            (!st.startReported && !st.finished) || st.testsExpected > st.testsExecuted))
  {
  }

  /** What `close` hands out in each of its branches: nothing once the end
      was reported; "No test results" when no status block came and the run
      did not finish; the incomplete-run message when fewer tests ran than
      expected; otherwise `TestRunEnded(0)`, preceded by
      `TestRunStartedEvent(0)` only when no run start was reported. Only the
      last branch changes the state, by marking the end reported. */
  lemma {:induction false} CloseRunBranches(st: RunState)
    ensures var (next, events) := CloseRun(st);
      && (st.finishReported ==> next == st && events.None?)
      && (!st.finishReported && !st.startReported && !st.finished ==>
            next == st && events == Some([TestRunFailed(NoTestResults)]))
      && (!st.finishReported && (st.startReported || st.finished) && st.testsExpected > st.testsExecuted ==>
            next == st && events == Some([TestRunFailed(IncompleteMessage(st.testsExpected, st.testsExecuted))]))
      && (!st.finishReported && st.startReported && st.testsExpected <= st.testsExecuted ==>
            next == st.(finishReported := true) && events == Some([TestRunEnded(0, map[])]))
      && (!st.finishReported && !st.startReported && st.finished && st.testsExpected <= st.testsExecuted ==>
            next == st.(finishReported := true) && events == Some([TestRunStartedEvent(0), TestRunEnded(0, map[])]))
  {
    assert [] + [TestRunEnded(0, map[])] == [TestRunEnded(0, map[])];
    assert [TestRunStartedEvent(0)] + [TestRunEnded(0, map[])] == [TestRunStartedEvent(0), TestRunEnded(0, map[])];
  }

  /** The incomplete-run message carries both counts as decimal text that
      reads back as the counts. */
  lemma {:induction false} IncompleteMessageCounts(expected: int, executed: int)
    requires IntMin <= expected <= IntMax && IntMin <= executed <= IntMax
    ensures exists a, b :: (IncompleteMessage(expected, executed) == IncompleteBefore + a + IncompleteBetween + b
      && ToIntOrNull(a) == Some(expected) && ToIntOrNull(b) == Some(executed))
  {
    IntToStringRoundTrip(expected);
    IntToStringRoundTrip(executed);
    var a, b := IntToString(expected), IntToString(executed);
    assert IncompleteMessage(expected, executed) == IncompleteBefore + a + IncompleteBetween + b;
  }

  /** A run that never saw a status block but finished is reported as an
      empty run: started with 0 tests, then ended. */
  lemma {:induction false} CloseWithoutStatus(st: RunState, trace: seq<TestEvent>)
    requires ConsistentRun(st, trace)
    requires !st.startReported && st.finished && !st.finishReported
    ensures CloseRun(st).1 == Some([TestRunStartedEvent(0), TestRunEnded(0, map[])])
  {
    assert [TestRunStartedEvent(0)] + [TestRunEnded(0, map[])] == [TestRunStartedEvent(0), TestRunEnded(0, map[])];
  }

  /** Once `close` has reported the end of the run, closing again reports nothing. */
  lemma {:induction false} CloseTwice(st: RunState)
    ensures var (next, events) := CloseRun(st);
      events.Some? && events.value[|events.value| - 1].TestRunEnded? ==> CloseRun(next).1.None?
  {
  }
}
