/** The test lifecycle events the instrumentation parser produces. */
module TestRunner {

  /** A test method within a run: its class and its name. */
  datatype TestIdentifier = TestIdentifier(className: string, testName: string)

  type Metrics = map<string, string>

  datatype TestEvent =
    | TestRunStartedEvent(testCount: int)
    | TestStarted(id: TestIdentifier)
    | TestEnded(id: TestIdentifier, metrics: Metrics)
    | TestFailed(id: TestIdentifier, stackTrace: string)
    | TestIgnored(id: TestIdentifier)
    | TestAssumptionFailed(id: TestIdentifier, stackTrace: string)
    | TestRunEnded(elapsedTime: int, runMetrics: Metrics)
    | TestRunFailed(error: string)
  {
    /** The event is about one test rather than the whole run. */
    predicate ConcernsTest() {
      TestStarted? || TestEnded? || TestFailed? || TestIgnored? || TestAssumptionFailed?
    }
  }
}
