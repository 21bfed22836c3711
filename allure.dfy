/** The report entities of the Allure backend that the plugin fills in
    (`io.qameta.allure.entity`), and the results visitor that receives them.
    Only the field values are modelled; the setters and the visitor's storage
    belong to the backend. */
module Allure {
  import opened Wrappers

  /** The closed set of report statuses. */
  datatype Status = Passed | Failed | Broken | Skipped | Unknown

  /** A report time: unset (`new Time()`), a window made by
      `Time.create(start, stop)`, or a bare duration made by
      `Time.create(duration)`, whose argument may be a null `Long`. */
  datatype Time = Empty | Window(start: int, stop: int) | DurationOnly(duration: Option<int>)

  datatype LabelName = ResultFormat | Suite | TestClass | Package

  datatype Label = Label(name: LabelName, value: Option<string>)

  /** The handle that `visitAttachmentFile` returns for a file it has stored. */
  datatype Attachment = Attachment(source: string)

  /** One step of a test stage, filled in through its setters. */
  datatype Step = Step(
    name: Option<string>,
    statusMessage: Option<string>,
    time: Time,
    status: Status,
    steps: seq<Step>,
    attachments: seq<Attachment>)

  datatype StageResult = StageResult(name: Option<string>, status: Status, steps: seq<Step>, time: Time)

  datatype TestResult = TestResult(
    testId: Option<string>,
    historyId: Option<string>,
    name: string,
    labels: seq<Label>,
    uid: Option<string>,
    status: Status,
    flaky: bool,
    time: Time,
    testStage: StageResult,
    statusMessage: string)

  /** One call made on the results visitor. */
  datatype Event = AttachmentFileVisited(path: string) | TestResultVisited(result: TestResult)

  /** The results visitor, seen as the append-only log of calls made on it. */
  class ResultsLog {
    var events: seq<Event>

    constructor ()
      ensures events == []
    {
      events := [];
    }

    /** `visitAttachmentFile`: records the path and returns its handle. */
    method VisitAttachmentFile(path: string) returns (a: Attachment)
      modifies this
      ensures events == old(events) + [AttachmentFileVisited(path)]
      ensures a == Attachment(path)
    {
      events := events + [AttachmentFileVisited(path)];
      a := Attachment(path);
    }

    /** `visitTestResult`: records the finished result. */
    method VisitTestResult(result: TestResult)
      modifies this
      ensures events == old(events) + [TestResultVisited(result)]
    {
      events := events + [TestResultVisited(result)];
    }
  }

  /** The results among a sequence of visitor calls, in call order. */
  function ResultsOf(events: seq<Event>): (r: seq<TestResult>)
    ensures |r| <= |events|
  {
    if events == [] then []
    else
      ResultsOf(events[..|events| - 1]) +
      match events[|events| - 1]
      case TestResultVisited(result) => [result]
      case AttachmentFileVisited(_) => []
  }
}
