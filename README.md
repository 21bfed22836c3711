# AllureXcodeResultsPlugin core, modelled in Dafny

This project models the core of the Allure reader plugin for Xcode test
results: how it turns an already-parsed `*TestSummaries.plist` document into
calls on Allure's results visitor. It covers the walk over
`TestableSummaries` → `Tests` → `Subtests`, the assembly of one `TestResult`
per test, the walk over `ActivitySummaries` → `SubActivities` with its status
rollup and attachment lookup, and the time and status helpers of
`ParserUtils`. The model follows the code as written, quirks included:

- `allSteps` is never appended to, so `processActivities` always returns no
  steps. A test's time therefore always comes from `Duration`, and the
  "child steps" branch of the classification is never taken.
- The rollup is FAILED exactly when an activity of the list itself has the
  assertion-failure type. It is never BROKEN, and a nested failure does not
  propagate. It only reaches the stage; the result's status comes from
  `TestStatus`.
- A sub-activity's attachments are visited before its parent's own.
- A null `StartTimeInterval`/`FinishTimeInterval` (unboxed by
  `endTime - startTime`) or a null `TestStatus` (`equals` on null) throws a
  NullPointerException. That ends the whole file. What was already visited
  stays visited, and other files are still processed.
- `getTime(null, d)` is an unset time, because unboxing the null start
  throws inside the `try`; the `Time.create(durationMs)` branch is dead.

Other behaviour of the code worth noting:
- `getStatus` maps "Failure" to FAILED, "Error" to BROKEN, "Skipped" to
  SKIPPED and any other string to PASSED; a null string throws.
- `DiagnosticReportFileName` is never read, so crash reports play no part.
- The status message is built from `FailureSummaries`, one line per entry,
  or is "Success" when there are none.
- A step is named by the activity's `UUID`; its `Title` becomes the step's
  status message.
- Exceptions are caught per file, not per test.

Layout, one module per file:
- `wrappers.dfy`: `Option` (a nullable reference) and `Outcome` (normal
  completion or NullPointerException).
- `allure.dfy`: the Allure entities that are filled in (`Status`, `Time`,
  `Label`, `Step`, `StageResult`, `TestResult`), and `ResultsLog`, the
  visitor seen as an append-only log of its calls.
- `plist.dfy`: the parsed document as typed datatypes.
- `parser_utils.dfy`: `ParserUtils`.
- `activity_walk.dfy`: `processActivities` as functions, with reference
  definitions and lemmas.
- `test_walk.dfy`: the test-tree walk and result assembly as functions, with
  reference definitions and lemmas.
- `xcode_results_bundle_plugin.dfy`: the plugin's methods. They work
  imperatively on the visitor, and each one is proved to append exactly the
  visits of its specification function and to complete the way that function
  says.

The main results:
- `TestWalk.WalkSummariesFlattens`: the tree walk of a document does the same
  as processing, one after another, the tests it reaches in pre-order. A test
  is reached when it sits directly under a group; a root-level test, an
  unrecognised `TestObjectClass` and the `Subtests` of a test are skipped.
- `TestWalk.FileVisitsComplete` and `TestWalk.FileVisitsAbort`: what a file
  emits when every test completes; and, when test `k` is the first to throw,
  exactly the visits of the earlier tests plus the attachments visited before
  the throw.
- `ActivityWalk.WalkActivitiesMeaning`: the activity walk's outcome, rollup,
  steps and attachment visits in terms of independent definitions.

## Model

| member | source | states |
|---|---|---|
| `ParserUtils.TruncateTowardZero` | src/main/java/com/behindmedia/allure/plugin/xcode/ParserUtils.java:15-17 | `longValue()` drops the fraction toward zero: the result is within 1 of the value, on the zero side |
| `ParserUtils.GetTimeInMilliseconds` | src/main/java/com/behindmedia/allure/plugin/xcode/ParserUtils.java:12-18 | null stays null; otherwise the result is 1000 × seconds truncated toward zero, in exact decimal arithmetic |
| `ParserUtils.DecimalMilliseconds` | src/main/java/com/behindmedia/allure/plugin/xcode/ParserUtils.java:14-18 | 12.345 s is exactly 12345 ms, and -0.0015 s is -1 ms |
| `ParserUtils.MillisecondsRoundTrip` | src/main/java/com/behindmedia/allure/plugin/xcode/ParserUtils.java:14-18 | a whole number of milliseconds converted to seconds converts back to itself |
| `ParserUtils.MillisecondsOfNegation` | src/main/java/com/behindmedia/allure/plugin/xcode/ParserUtils.java:15-17 | the conversion of a negated time is the negated conversion |
| `ParserUtils.GetTime` | src/main/java/com/behindmedia/allure/plugin/xcode/ParserUtils.java:20-34 | a null start or a null duration gives an unset time; otherwise a window starting at ms(start) whose length is ms(duration); never a bare duration |
| `ParserUtils.WindowExample` | src/main/java/com/behindmedia/allure/plugin/xcode/ParserUtils.java:20-28 | start 1.0 s with duration 2.5 s is the window [1000, 3500] |
| `ParserUtils.GetStatus` | src/main/java/com/behindmedia/allure/plugin/xcode/ParserUtils.java:36-47 | throws exactly on null; FAILED iff "Failure", BROKEN iff "Error", SKIPPED iff "Skipped"; never UNKNOWN |
| `ParserUtils.GetStatusPassed` | src/main/java/com/behindmedia/allure/plugin/xcode/ParserUtils.java:36-47 | PASSED exactly for a non-null string other than the three markers |
| `ParserUtils.IsFlaky` | src/main/java/com/behindmedia/allure/plugin/xcode/ParserUtils.java:49-51 | never flaky |
| `ActivityWalk.ResolveAttachmentPath` | src/main/java/com/behindmedia/allure/plugin/xcode/XcodeResultsBundlePlugin.java:261-269 | a path is found exactly when the name is non-null and its path under the attachment directory exists, and it is that path |
| `ActivityWalk.AttachmentVisits` | src/main/java/com/behindmedia/allure/plugin/xcode/XcodeResultsBundlePlugin.java:203-209 | at most one visit per attachment entry, each for an existing file; its full meaning is `AttachmentVisitsMeaning` |
| `ActivityWalk.AttachmentVisitsMeaning` | src/main/java/com/behindmedia/allure/plugin/xcode/XcodeResultsBundlePlugin.java:203-209 | for any list, missing and existing entries mixed: as many visits as entries that name an existing file, and such an entry k is visited at position "number of resolving entries before k", so every resolving entry is visited once, in declaration order, and no other |
| `ActivityWalk.MissingAttachmentSkipped` | src/main/java/com/behindmedia/allure/plugin/xcode/XcodeResultsBundlePlugin.java:203-209 | an entry with no name or no file contributes nothing wherever it stands: the visits are those of the list without it |
| `ActivityWalk.MissingAttachmentsNotVisited` | src/main/java/com/behindmedia/allure/plugin/xcode/XcodeResultsBundlePlugin.java:203-209 | entries with no name or no file produce no visit and no error |
| `ActivityWalk.ExistingAttachmentsVisitedInOrder` | src/main/java/com/behindmedia/allure/plugin/xcode/XcodeResultsBundlePlugin.java:203-209 | when every entry names an existing file, each is visited once, in declaration order |
| `ActivityWalk.TreeVisitsAreExistingAttachments` | src/main/java/com/behindmedia/allure/plugin/xcode/XcodeResultsBundlePlugin.java:199-209 | the activity tree only ever visits attachment files, and only existing ones |
| `ActivityWalk.WalkActivityMeaning` | src/main/java/com/behindmedia/allure/plugin/xcode/XcodeResultsBundlePlugin.java:184-223 | one activity throws iff some activity of its tree lacks a time; otherwise it visits its sub-activities' attachments and then its own, and its status is FAILED iff its type is the assertion-failure type, PASSED otherwise; a throw leaves a prefix of those visits |
| `ActivityWalk.WalkActivitiesMeaning` | src/main/java/com/behindmedia/allure/plugin/xcode/XcodeResultsBundlePlugin.java:175-228 | a list throws iff some activity of the tree lacks a time; otherwise it visits every attachment in post-order, rolls up to FAILED iff an activity of the list is an assertion failure (else PASSED) and returns no steps; a throw leaves a prefix of the visits |
| `ActivityWalk.RollupNeverBroken` | src/main/java/com/behindmedia/allure/plugin/xcode/XcodeResultsBundlePlugin.java:177-178 | a completed walk's rollup is PASSED or FAILED, never BROKEN, and its step list is empty |
| `ActivityWalk.ThrowStops` | src/main/java/com/behindmedia/allure/plugin/xcode/XcodeResultsBundlePlugin.java:188-199 | once an activity throws, no later sibling is walked |
| `ActivityWalk.NestedAttachmentFirst` | src/main/java/com/behindmedia/allure/plugin/xcode/XcodeResultsBundlePlugin.java:198-209 | a sub-activity's attachment is visited before its parent's |
| `ActivityWalk.NestedFailureDoesNotPropagate` | src/main/java/com/behindmedia/allure/plugin/xcode/XcodeResultsBundlePlugin.java:213-224 | an assertion failure under a plain activity leaves the rollup PASSED |
| `TestWalk.HistoryId` | src/main/java/com/behindmedia/allure/plugin/xcode/XcodeResultsBundlePlugin.java:100 | a history id exists iff the group name and the test name are both non-null, and it is the suite (or "null"), ":", the group, "#" and the test name, at those positions |
| `TestWalk.HistoryIdExample` | src/main/java/com/behindmedia/allure/plugin/xcode/XcodeResultsBundlePlugin.java:100 | suite "Suite", group "Foo", test "Bar" give "Suite:Foo#Bar"; a null suite is rendered "null" |
| `TestWalk.DisplayName` | src/main/java/com/behindmedia/allure/plugin/xcode/XcodeResultsBundlePlugin.java:105 | the test name, or "Unknown test case" when it is null |
| `TestWalk.Labels` | src/main/java/com/behindmedia/allure/plugin/xcode/XcodeResultsBundlePlugin.java:106-112 | result format "xcode" and suite = group are always present; test class and package are present iff the group is non-null; no label name twice |
| `TestWalk.FailureMessage` | src/main/java/com/behindmedia/allure/plugin/xcode/XcodeResultsBundlePlugin.java:156-161 | a performance failure contributes only "Performance failure: "; any other entry is "Failure: ", then the message, then " (" file ":" line ")", each null rendered "null" |
| `TestWalk.StatusMessageMeaning` | src/main/java/com/behindmedia/allure/plugin/xcode/XcodeResultsBundlePlugin.java:152-170 | the message is "Success" iff there are no failure entries; otherwise every entry's text, each followed by "\n", in declaration order |
| `TestWalk.WalkTestMeaning` | src/main/java/com/behindmedia/allure/plugin/xcode/XcodeResultsBundlePlugin.java:96-173 | one test completes iff its status is non-null and all its activities have times; then it visits its attachments and then exactly one result, whose status comes from `TestStatus`, whose stage carries the rollup and no steps, and whose time is the `Duration`; a null status visits nothing |
| `TestWalk.WalkObjectFlattens` | src/main/java/com/behindmedia/allure/plugin/xcode/XcodeResultsBundlePlugin.java:74-94 | one node's walk processes, in order, the tests it reaches: a test only under a parent group, named by that group |
| `TestWalk.WalkObjectsFlattens` | src/main/java/com/behindmedia/allure/plugin/xcode/XcodeResultsBundlePlugin.java:69-71 | a sibling list's walk processes, in order, the tests the siblings reach |
| `TestWalk.WalkSummariesFlattens` | src/main/java/com/behindmedia/allure/plugin/xcode/XcodeResultsBundlePlugin.java:52-72 | a document's walk processes, in order, the tests reached in every suite |
| `TestWalk.SkippedNodeKeepsSiblings` | src/main/java/com/behindmedia/allure/plugin/xcode/XcodeResultsBundlePlugin.java:82-93 | a root-level test or an unrecognised node produces nothing, and its siblings are processed as if it were absent |
| `TestWalk.TestSubtestsIgnored` | src/main/java/com/behindmedia/allure/plugin/xcode/XcodeResultsBundlePlugin.java:82-89 | the `Subtests` of a test node never matter |
| `TestWalk.ObjectsThrowStops` | src/main/java/com/behindmedia/allure/plugin/xcode/XcodeResultsBundlePlugin.java:79-81 | once a sibling throws, no later sibling is processed |
| `TestWalk.SummariesThrowStops` | src/main/java/com/behindmedia/allure/plugin/xcode/XcodeResultsBundlePlugin.java:53-55 | once a suite throws, no later suite of the file is processed |
| `TestWalk.WalkCasesComplete` | src/main/java/com/behindmedia/allure/plugin/xcode/XcodeResultsBundlePlugin.java:79-85 | processing tests in order completes iff every test completes, and then visits each test's attachments followed by its result |
| `TestWalk.FirstThrowAborts` | src/main/java/com/behindmedia/allure/plugin/xcode/XcodeResultsBundlePlugin.java:47-59 | when test k is the first to throw, the visits are those of tests before k plus k's attachments visited before the throw, and nothing later |
| `TestWalk.OneResultPerTest` | src/main/java/com/behindmedia/allure/plugin/xcode/XcodeResultsBundlePlugin.java:172 | completing tests produce exactly one result each, in pre-order |
| `TestWalk.FileVisitsComplete` | src/main/java/com/behindmedia/allure/plugin/xcode/XcodeResultsBundlePlugin.java:47-60 | a file whose tests all complete emits, in pre-order over all suites, each test's attachments and one result, as many results as reachable tests |
| `TestWalk.FileVisitsAbort` | src/main/java/com/behindmedia/allure/plugin/xcode/XcodeResultsBundlePlugin.java:47-60 | when test k is the first to throw, the file keeps the k earlier results and the attachments visited before the throw, and emits nothing more |
| `TestWalk.ReadVisitsSplit` | src/main/java/com/behindmedia/allure/plugin/xcode/XcodeResultsBundlePlugin.java:39-41 | each file contributes its own visits, whatever the other files do |
| `ActivityWalk.Resolve` | src/main/java/com/behindmedia/allure/plugin/xcode/XcodeResultsBundlePlugin.java:264 | `rootDirectory.resolve(name)`, no contract of its own; used by `ResolveAttachmentPath` |
| `ActivityWalk.Classify` | src/main/java/com/behindmedia/allure/plugin/xcode/XcodeResultsBundlePlugin.java:213-221 | no contract of its own; by `WalkActivityMeaning` an activity is FAILED iff it is an assertion failure, since the child-steps branch never sees a step |
| `ActivityWalk.WalkActivity` | src/main/java/com/behindmedia/allure/plugin/xcode/XcodeResultsBundlePlugin.java:184-224 | no contract of its own; its meaning is `WalkActivityMeaning` |
| `ActivityWalk.Rollup` | src/main/java/com/behindmedia/allure/plugin/xcode/XcodeResultsBundlePlugin.java:224 | no contract of its own; `RollupMeaning` states one step of the `effectiveStatus` fold (throw after a throw, FAILED once either side is FAILED, visits concatenated), and `WalkActivitiesMeaning` the whole fold |
| `ActivityWalk.WalkActivities` | src/main/java/com/behindmedia/allure/plugin/xcode/XcodeResultsBundlePlugin.java:175-228 | no contract of its own; its meaning is `WalkActivitiesMeaning`, and `ThrowStops` its abort |
| `TestWalk.AppendedFailures` | src/main/java/com/behindmedia/allure/plugin/xcode/XcodeResultsBundlePlugin.java:152-165 | no contract of its own; `AppendedIsFailureLines` and `StatusMessageMeaning` give its content |
| `TestWalk.StatusMessage` | src/main/java/com/behindmedia/allure/plugin/xcode/XcodeResultsBundlePlugin.java:152-170 | no contract of its own; its meaning is `StatusMessageMeaning` |
| `TestWalk.TestTime` | src/main/java/com/behindmedia/allure/plugin/xcode/XcodeResultsBundlePlugin.java:131-144 | no contract of its own; by `WalkTestMeaning` the step branch is never reached and the time is `DurationOnly` of the `Duration` in milliseconds |
| `TestWalk.AssembleResult` | src/main/java/com/behindmedia/allure/plugin/xcode/XcodeResultsBundlePlugin.java:98-150 | no contract of its own; `WalkTestMeaning` states every field of the visited result |
| `TestWalk.WalkTest` | src/main/java/com/behindmedia/allure/plugin/xcode/XcodeResultsBundlePlugin.java:96-173 | no contract of its own; its meaning is `WalkTestMeaning` |
| `TestWalk.WalkObject` | src/main/java/com/behindmedia/allure/plugin/xcode/XcodeResultsBundlePlugin.java:74-94 | no contract of its own; its meaning is `WalkObjectFlattens`, with `SkippedNodeKeepsSiblings` and `TestSubtestsIgnored` |
| `TestWalk.WalkObjects` | src/main/java/com/behindmedia/allure/plugin/xcode/XcodeResultsBundlePlugin.java:69-71 | no contract of its own; its meaning is `WalkObjectsFlattens`, and `ObjectsThrowStops` its abort |
| `TestWalk.WalkSummaries` | src/main/java/com/behindmedia/allure/plugin/xcode/XcodeResultsBundlePlugin.java:52-55 | no contract of its own; its meaning is `WalkSummariesFlattens`, and `SummariesThrowStops` its abort |
| `TestWalk.FileVisits` | src/main/java/com/behindmedia/allure/plugin/xcode/XcodeResultsBundlePlugin.java:47-60 | no contract of its own; its meaning is `FileVisitsComplete` and `FileVisitsAbort` |
| `TestWalk.ReadVisits` | src/main/java/com/behindmedia/allure/plugin/xcode/XcodeResultsBundlePlugin.java:39-41 | no contract of its own; `ReadVisitsSplit` states that files contribute independently |
| `Allure.ResultsOf` | src/main/java/com/behindmedia/allure/plugin/xcode/XcodeResultsBundlePlugin.java:172 | the results handed to `visitTestResult`, in order, never more than the calls made; `OneResultPerTest` counts them |
| `Allure.ResultsLog.VisitAttachmentFile` | src/main/java/com/behindmedia/allure/plugin/xcode/XcodeResultsBundlePlugin.java:206 | records one attachment visit and returns its handle |
| `Allure.ResultsLog.VisitTestResult` | src/main/java/com/behindmedia/allure/plugin/xcode/XcodeResultsBundlePlugin.java:172 | records one result visit |
| `XcodeResultsBundlePlugin.ReadResults` | src/main/java/com/behindmedia/allure/plugin/xcode/XcodeResultsBundlePlugin.java:38-45 | appends each file's visits in turn |
| `XcodeResultsBundlePlugin.ProcessTestSummaries` | src/main/java/com/behindmedia/allure/plugin/xcode/XcodeResultsBundlePlugin.java:47-60 | appends the file's visits up to the first exception, which is caught; an unreadable file appends nothing |
| `XcodeResultsBundlePlugin.ProcessTestSummary` | src/main/java/com/behindmedia/allure/plugin/xcode/XcodeResultsBundlePlugin.java:62-72 | walks the suite's tests without a parent |
| `XcodeResultsBundlePlugin.ProcessTestObjects` | src/main/java/com/behindmedia/allure/plugin/xcode/XcodeResultsBundlePlugin.java:79-81 | walks siblings in order, stopping at the first exception |
| `XcodeResultsBundlePlugin.ProcessTestObject` | src/main/java/com/behindmedia/allure/plugin/xcode/XcodeResultsBundlePlugin.java:74-94 | dispatches on `TestObjectClass` exactly as `WalkObject` describes |
| `XcodeResultsBundlePlugin.ProcessTest` | src/main/java/com/behindmedia/allure/plugin/xcode/XcodeResultsBundlePlugin.java:96-173 | appends the visits of `WalkTest` and completes as it does |
| `XcodeResultsBundlePlugin.BuildStatusMessage` | src/main/java/com/behindmedia/allure/plugin/xcode/XcodeResultsBundlePlugin.java:152-170 | the builder loop yields exactly the status message |
| `XcodeResultsBundlePlugin.ProcessActivities` | src/main/java/com/behindmedia/allure/plugin/xcode/XcodeResultsBundlePlugin.java:175-228 | the loop appends the visits of `WalkActivities` and returns its rollup and (empty) step list, or throws where it does |
| `XcodeResultsBundlePlugin.ProcessActivity` | src/main/java/com/behindmedia/allure/plugin/xcode/XcodeResultsBundlePlugin.java:184-224 | one pass of the loop: throws on a missing time before anything is visited, else appends the sub-activities' visits and then its own attachments, and returns the status `WalkActivity` gives |
| `XcodeResultsBundlePlugin.VisitAttachments` | src/main/java/com/behindmedia/allure/plugin/xcode/XcodeResultsBundlePlugin.java:203-211 | appends exactly the visits of `AttachmentVisits` (one per entry naming an existing file, in declaration order, by `AttachmentVisitsMeaning`) and returns one handle per visit, in the same order |

## Left out

- `readPlist` and `listResults`: file reading, plist parsing and directory listing are I/O. The model takes each file's parsed document, or `None` when reading it threw. The outer catch of `readResults` only guards `listResults`.
- Document accessors: conversion errors inside `XMLPropertyListConfiguration` (a list of the wrong type, a non-numeric `Duration`) belong to the parsing library. Every key is a typed optional field.
- Accessors: the one-argument `getDouble` and `getString` are taken to return null for a missing key, so a missing `StartTimeInterval`/`FinishTimeInterval` throws only at the unboxing on line 194, and a missing `Duration` gives a bare duration of null with the result still visited. If the library threw on a missing key instead, a missing `Duration` would end the file; the library is not part of this model.
- `Files.exists` and `Path.resolve`: filesystem behaviour. The attachment directory is given per file (`parsedFile.getParent().resolve("Attachments")`). A name resolves to `dir + "/" + name`, and existence is a given set of paths. A name whose path is invalid is one not in that set.
- Floating point: `Double` times are exact decimals (`real`). The double→decimal conversion of `BigDecimal.valueOf` and the double subtraction `endTime - startTime` are not modelled. `ParserUtils.GetTimeInMilliseconds` ignores the overflow of `longValue()` beyond 64 bits.
- Allure internals: `Time.create(start, stop)` is taken to unbox its operands. That only matters in the step-time branch, which is never taken. `Time.create(duration)` is taken to accept a null `Long`. `addLabelIfNotExists` on a fresh result adds each label once. The visitor's storage is an append-only log, and `visitAttachmentFile`'s handle is the path it was given.
- Logging (`LOGGER`) is left out.
- The built `Step` values are kept only as field values, and they are dropped, as in the code.
