/** The stateful parser of `am instrument -r` output. It buffers the text it
    is fed, cuts one block ("atom") at a time off the front of the buffer, and
    turns each into test events. Every method is proved against the functions
    of module `Instrumentation`, and keeps the run state consistent with the
    events handed out so far. */
module Transformer {
  import opened Wrappers
  import opened Text
  import opened Numbers
  import opened TestRunner
  import opened Instrumentation

  /** The `Time:` scan of `parseInstrumentationCode`: every `Time: ` line
      overwrites the run time, a value that is not a number resets it to 0. */
  method ScanTime(atom: seq<string>) returns (time: int)
    ensures time == RunTime(atom)
  {
    time := 0;
    var i := 0;
    while i < |atom|
      invariant 0 <= i <= |atom|
      invariant time == RunTime(atom[..i])
    {
      var line := atom[i];
      if StartsWith(line, TimePrefix) {
        time := match SecondsToMillis(line[|TimePrefix|..]) case Some(t) => t case None => 0;
      }
      assert atom[..i + 1][..i] == atom[..i];
      i := i + 1;
    }
    assert atom[..i] == atom;
  }

  class InstrumentationResponseTransformer {
    /** The text received and not yet parsed. */
    var buffer: string
    var startReported: bool
    var finishReported: bool
    var finished: bool
    var testsExpected: int
    var testsExecuted: int
    /** Every event handed out so far, by `transform` and `close`. */
    ghost var reported: seq<TestEvent>

    function State(): RunState
      reads this`startReported, this`finishReported, this`finished, this`testsExpected, this`testsExecuted
    {
      RunState(startReported, finishReported, finished, testsExpected, testsExecuted)
    }

    ghost predicate Valid()
      reads this
    {
      ConsistentRun(State(), reported)
    }

    constructor ()
      ensures Valid()
      ensures buffer == [] && State() == InitialRun && reported == []
    {
      buffer := [];
      startReported := false;
      finishReported := false;
      finished := false;
      testsExpected := 0;
      testsExecuted := 0;
      reported := [];
      InitialRunConsistent();
    }

    /** `process`: the decoded chunk is appended to the buffer. */
    method Process(chunk: string)
      requires Valid()
      modifies this`buffer
      ensures Valid()
      ensures buffer == old(buffer) + chunk
    {
      buffer := buffer + chunk;
    }

    /** `transform`: when the buffered lines hold a terminator line, the lines
        up to and including the first one are cut off the buffer and parsed;
        otherwise nothing happens and null is returned. */
    method Transform() returns (reply: Reply)
      requires Valid()
      modifies this
      ensures Valid()
      ensures NextAtom(old(buffer)).None? ==>
        reply == Success(None) && buffer == old(buffer) && State() == old(State()) && reported == old(reported)
      ensures NextAtom(old(buffer)).Some? ==>
        var atom := NextAtom(old(buffer)).value;
        && ConsumedLength(atom) <= |old(buffer)|
        && buffer == old(buffer)[ConsumedLength(atom)..]
        && (State(), reply) == ParseAtom(old(State()), atom)
        && reported == old(reported) + Emitted(reply)
    {
      var lines := Lines(buffer);
      var tokenPosition := FirstTerminator(lines);
      if tokenPosition.None? {
        return Success(None);
      }
      var atom := lines[..tokenPosition.value + 1];
      CutAtomOff(atom);
      reply := ParseAndRecord(atom);
    }

    /** The `parse` call of `transform`, with the events it hands out added
        to the record of reported events. */
    method ParseAndRecord(atom: seq<string>) returns (reply: Reply)
      requires |atom| >= 1 && Valid()
      modifies this`startReported, this`finishReported, this`finished, this`testsExpected, this`testsExecuted, this`reported
      ensures Valid()
      ensures (State(), reply) == ParseAtom(old(State()), atom)
      ensures reported == old(reported) + Emitted(reply)
    {
      ghost var before := State();
      reply := Parse(atom);
      ParseKeepsRunConsistent(before, reported, atom);
      reported := reported + Emitted(reply);
    }

    /** The `buffer.delete` of `transform`: the characters of the atom, and
        the newlines between its lines, are removed from the front. */
    method CutAtomOff(atom: seq<string>)
      requires NextAtom(buffer) == Some(atom)
      modifies this`buffer
      ensures ConsumedLength(atom) <= |old(buffer)| && buffer == old(buffer)[ConsumedLength(atom)..]
    {
      var n := ConsumedLength(atom);
      assert n <= |buffer| by {
        CutAtom(buffer, |atom| - 1);
      }
      buffer := buffer[n..];
    }

    /** `close`: the terminal signal once the stream has ended. */
    method Close() returns (events: Option<seq<TestEvent>>)
      requires Valid()
      modifies this`finishReported, this`reported
      ensures Valid()
      ensures (State(), events) == CloseRun(old(State()))
      ensures reported == old(reported) + (if events.Some? then events.value else [])
    {
      ghost var before := State();
      CloseKeepsRunConsistent(before, reported);
      if finishReported {
        assert reported + [] == reported;
        return None;
      }
      if !startReported && !finished {
        events := Some([TestRunFailed(NoTestResults)]);
      } else if testsExpected > testsExecuted {
        events := Some([TestRunFailed(IncompleteMessage(testsExpected, testsExecuted))]);
      } else {
        var list: seq<TestEvent> := [];
        if !startReported {
          list := list + [TestRunStartedEvent(0)];
        }
        list := list + [TestRunEnded(0, map[])];
        assert list == (if !before.startReported then [TestRunStartedEvent(0)] else []) + [TestRunEnded(0, map[])];
        finishReported := true;
        events := Some(list);
      }
      assert (State(), events) == CloseRun(before);
      reported := reported + events.value;
    }

    /** `parse`: the last line of the atom decides the branch. */
    method Parse(atom: seq<string>) returns (reply: Reply)
      requires |atom| >= 1
      modifies this`startReported, this`finishReported, this`finished, this`testsExpected, this`testsExecuted
      ensures (State(), reply) == ParseAtom(old(State()), atom)
    {
      var last := atom[|atom| - 1];
      if StartsWith(last, StatusCodeToken) {
        reply := ParseStatusCode(last, atom[..|atom| - 1]);
      } else if StartsWith(last, CodeToken) {
        finished := true;
        reply := ParseInstrumentationCode(last, atom);
      } else if StartsWith(last, FailedToken) {
        finished := true;
        reply := Success(None);
      } else {
        reply := Success(None);
      }
    }

    /** `parseStatusCode`: reads the status code off the last line and the
        parameters off the others, then reports them. */
    method ParseStatusCode(last: string, lines: seq<string>) returns (reply: Reply)
      modifies this`startReported, this`testsExpected, this`testsExecuted
      ensures (State(), reply) == StatusBlock(old(State()), last, lines)
    {
      if |last| < |StatusCodeToken| + 1 {
        return Failure(StringIndexOutOfBounds);
      }
      var value := Trim(last[|StatusCodeToken| + 1..]);
      var parameters := ToMap(lines);
      var status := StatusOf(ToIntOrNull(value));
      assert StatusBlock(State(), last, lines) == StatusReport(State(), status, parameters);
      reply := ReportStatus(status, parameters);
    }

    /** The rest of `parseStatusCode`: the start of the run is reported once,
        an unknown status throws, and the events of the block's test follow. */
    method ReportStatus(status: Status, parameters: map<string, string>) returns (reply: Reply)
      modifies this`startReported, this`testsExpected, this`testsExecuted
      ensures (State(), reply) == StatusReport(old(State()), status, parameters)
    {
      ghost var st := State();
      ghost var rs := RunStartReport(st, parameters);
      var start := ReportRunStart(parameters);
      if start.Failure? {
        assert rs.Failure?;
        return Failure(start.error);
      }
      assert rs.Success? && rs.value.0 == State() && rs.value.1 == start.value;
      if status == UNKNOWN {
        return Failure(NotImplemented);
      }
      ghost var started := State();
      var events := ReportTest(status, parameters, start.value);
      reply := Success(NullIfEmpty(events));
      assert State() == started.(testsExecuted := started.testsExecuted + (if Completes(status) then 1 else 0));
    }

    /** The `if (!startReported)` section of `parseStatusCode`. */
    method ReportRunStart(parameters: map<string, string>) returns (r: Result<seq<TestEvent>, Exception>)
      modifies this`startReported, this`testsExpected
      ensures match RunStartReport(old(State()), parameters)
        case Failure(e) => r == Failure(e) && State() == old(State())
        case Success((started, events)) => r == Success(events) && State() == started
    {
      var events: seq<TestEvent> := [];
      if !startReported {
        if "numtests" in parameters {
          var tests := ToIntOrNull(parameters["numtests"]);
          if tests.None? {
            return Failure(NumberFormat(parameters["numtests"]));
          }
          events := [TestRunStartedEvent(tests.value)];
          testsExpected := tests.value;
        }
        startReported := true;
      }
      r := Success(events);
    }

    /** The `when` over the status in `parseStatusCode`: the events of the
        block's test are added, and a test whose status ends it is counted. */
    method ReportTest(status: Status, parameters: map<string, string>, events: seq<TestEvent>)
      returns (added: seq<TestEvent>)
      requires status != UNKNOWN
      modifies this`testsExecuted
      ensures added == events + TestEvents(status, parameters)
      ensures testsExecuted == old(testsExecuted) + (if Completes(status) then 1 else 0)
    {
      var metrics: Metrics := map[];
      var id := TestId(parameters);
      added := events;
      match status {
        case SUCCESS =>
          if id.Some? {
            added := added + [TestEnded(id.value, metrics)];
          }
          testsExecuted := testsExecuted + 1;
        case START =>
          if id.Some? {
            added := added + [TestStarted(id.value)];
          }
        case IN_PROGRESS =>
        case ERROR =>
          if id.Some? && "stack" in parameters {
            added := added + [TestFailed(id.value, parameters["stack"]), TestEnded(id.value, metrics)];
          }
          testsExecuted := testsExecuted + 1;
        case FAILURE =>
          if id.Some? && "stack" in parameters {
            added := added + [TestFailed(id.value, parameters["stack"]), TestEnded(id.value, metrics)];
          }
          testsExecuted := testsExecuted + 1;
        case IGNORED =>
          if id.Some? {
            added := added + [TestStarted(id.value), TestIgnored(id.value), TestEnded(id.value, metrics)];
          }
          testsExecuted := testsExecuted + 1;
        case ASSUMPTION_FAILURE =>
          if id.Some? && "stack" in parameters {
            added := added + [TestAssumptionFailed(id.value, parameters["stack"]), TestEnded(id.value, metrics)];
          }
          testsExecuted := testsExecuted + 1;
      }
    }

    /** `parseInstrumentationCode`: code -1 ends the run with the time the
        block reports; any other code is ignored. */
    method ParseInstrumentationCode(last: string, atom: seq<string>) returns (reply: Reply)
      modifies this`finishReported
      ensures (State(), reply) == CodeBlock(old(State()), last, atom)
    {
      if |last| < |CodeToken| + 1 {
        return Failure(StringIndexOutOfBounds);
      }
      var value := Trim(last[|CodeToken| + 1..]);
      var code := ToIntOrNull(value);
      if StatusOf(code) == ERROR {
        var time := ScanTime(atom);
        finishReported := true;
        reply := Success(Some([TestRunEnded(time, map[])]));
      } else {
        reply := Success(None);
      }
    }
  }
}
