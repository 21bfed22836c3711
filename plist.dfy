/** The already-parsed `*TestSummaries.plist` document, with every key the
    core reads extracted into a typed field. A missing key becomes `None`, a
    missing list becomes `[]` and a missing `PerformanceFailure` becomes
    `false`, which are the defaults the accessors are given. */
module Plist {
  import opened Wrappers

  /** `TestObjectClass` of a group node. */
  const GroupMarker := "IDESchemeActionTestSummaryGroup"
  /** `TestObjectClass` of a test node. */
  const TestMarker := "IDESchemeActionTestSummary"
  /** `ActivityType` of an assertion failure. */
  const AssertionFailureType := "com.apple.dt.xctest.activity-type.testAssertionFailure"

  /** One entry of an activity's `Attachments`. */
  datatype AttachmentConfig = AttachmentConfig(filename: Option<string>)

  /** One entry of `ActivitySummaries` or `SubActivities`. Times are in
      seconds, taken as exact decimals. */
  datatype Activity = Activity(
    activityType: Option<string>,
    title: Option<string>,
    uuid: Option<string>,
    startTimeInterval: Option<real>,
    finishTimeInterval: Option<real>,
    attachments: seq<AttachmentConfig>,
    subActivities: seq<Activity>)

  /** One entry of a test's `FailureSummaries`. */
  datatype FailureSummary = FailureSummary(
    fileName: Option<string>,
    message: Option<string>,
    lineNumber: Option<string>,
    performanceFailure: bool)

  /** One entry of `Tests` or `Subtests`. Every node has every key; which
      ones are read depends on `TestObjectClass`. */
  datatype TestNode = TestNode(
    testObjectClass: Option<string>,
    testName: Option<string>,
    testIdentifier: Option<string>,
    testSummaryGuid: Option<string>,
    testStatus: Option<string>,
    duration: Option<real>,
    activitySummaries: seq<Activity>,
    failureSummaries: seq<FailureSummary>,
    subtests: seq<TestNode>)

  /** One entry of `TestableSummaries`: a suite named by `TestName`. */
  datatype TestableSummary = TestableSummary(testName: Option<string>, tests: seq<TestNode>)

  datatype Document = Document(testableSummaries: seq<TestableSummary>)

  /** One result file found in the results directory: its parsed document
      (`None` when reading or parsing it threw), the `Attachments` directory
      beside it, and the set of paths that exist on disk. */
  datatype ResultFile = ResultFile(plist: Option<Document>, attachmentDir: string, existing: set<string>)
}
