/** What `processTestSummaries`, `processTestSummary`, `processTestObject`
    and `processTest` do, as functions: the visitor calls made and whether
    processing of the file is aborted. The lemmas show that the tree walk
    is the in-order processing of the tests it reaches, and what that emits. */
module TestWalk {
  import opened Wrappers
  import opened Allure
  import opened Plist
  import opened ParserUtils
  import opened ActivityWalk

  const UnknownTestCase := "Unknown test case"
  const XcodeResultsFormat := "xcode"

  /** Java's rendering of a possibly null `String` by `+` and `%s`. */
  function Str(s: Option<string>): string
  {
    match s
    case None => "null"
    case Some(v) => v
  }

  /** `String.format("%s:%s#%s", suite, group, name)` when the group and the
      test name are both non-null, and null otherwise: the suite (or "null"),
      a colon, the group, a hash and the test name. */
  function HistoryId(suite: Option<string>, group: Option<string>, name: Option<string>): (r: Option<string>)
    ensures r.Some? <==> group.Some? && name.Some?
    ensures r.Some? ==>
      var p, g := |Str(suite)| + 1, |group.value|;
      |r.value| == p + g + 1 + |name.value| &&
      r.value[..p] == Str(suite) + ":" && r.value[p..p + g] == group.value && r.value[p + g..] == "#" + name.value
  {
    if group.Some? && name.Some? then
      var prefix, tail := Str(suite) + ":", "#" + name.value;
      var id := prefix + group.value + tail;
      assert id[..|prefix|] == prefix;
      assert id[|prefix|..|prefix| + |group.value|] == group.value;
      assert id[|prefix| + |group.value|..] == tail;
      Some(id)
    else None
  }

  function DisplayName(name: Option<string>): (r: string)
    ensures name.Some? ==> r == name.value
    ensures name.None? ==> r == UnknownTestCase
  {
    if name.None? then UnknownTestCase else name.value
  }

  /** The labels added with `addLabelIfNotExists` on a fresh result. */
  function Labels(group: Option<string>): (r: seq<Label>)
    ensures Label(ResultFormat, Some(XcodeResultsFormat)) in r && Label(Suite, group) in r
    ensures Label(TestClass, group) in r <==> group.Some?
    ensures Label(Package, group) in r <==> group.Some?
    ensures forall i, j :: 0 <= i < j < |r| ==> r[i].name != r[j].name
    ensures forall k :: 0 <= k < |r| ==> r[k].name != ResultFormat ==> r[k].value == group
  {
    [Label(ResultFormat, Some(XcodeResultsFormat)), Label(Suite, group)] +
    if group.Some? then [Label(TestClass, group), Label(Package, group)] else []
  }

  /** The text one `FailureSummaries` entry contributes. The conditional
      `?:` binds looser than `+`, so a performance failure contributes the
      bare prefix, without the message, file and line. */
  function FailureMessage(f: FailureSummary): (r: string)
    ensures f.performanceFailure ==> r == "Performance failure: "
    ensures !f.performanceFailure ==>
      var message, location := Str(f.message), " (" + Str(f.fileName) + ":" + Str(f.lineNumber) + ")";
      |r| == 9 + |message| + |location| &&
      r[..9] == "Failure: " && r[9..9 + |message|] == message && r[9 + |message|..] == location
  {
    if f.performanceFailure then "Performance failure: "
    else
      var message, location := Str(f.message), " (" + Str(f.fileName) + ":" + Str(f.lineNumber) + ")";
      var text := "Failure: " + message + location;
      assert text[..9] == "Failure: ";
      assert text[9..9 + |message|] == message;
      assert text[9 + |message|..] == location;
      text
  }

  /** The content of the `StringBuilder` after the `forEach` over the entries. */
  function AppendedFailures(failures: seq<FailureSummary>): string
  {
    if failures == [] then ""
    else AppendedFailures(failures[..|failures| - 1]) + FailureLine(failures[|failures| - 1])
  }

  /** One more entry appends its text and then a line break. */
  lemma AppendedFailuresStep(failures: seq<FailureSummary>, i: nat)
    requires i < |failures|
    ensures AppendedFailures(failures[..i + 1]) == AppendedFailures(failures[..i]) + FailureMessage(failures[i]) + "\n"
  {
    assert failures[..i + 1][..i] == failures[..i];
  }

  /** The status message: the builder's content, or "Success" if it is empty. */
  function StatusMessage(failures: seq<FailureSummary>): string
  {
    var built := AppendedFailures(failures);
    if |built| == 0 then "Success" else built
  }

  /** One entry's text and its line break. */
  function FailureLine(f: FailureSummary): string
  {
    FailureMessage(f) + "\n"
  }

  /** Reference: each entry's line, first entry first. */
  function FailureLines(failures: seq<FailureSummary>): string
  {
    if failures == [] then "" else FailureLine(failures[0]) + FailureLines(failures[1..])
  }

  lemma {:induction false} AppendedIsFailureLines(failures: seq<FailureSummary>)
    ensures AppendedFailures(failures) == FailureLines(failures)
    decreases |failures|
  {
    if failures != [] {
      AppendedIsFailureLines(failures[..|failures| - 1]);
      FailureLinesLast(failures);
    }
  }

  lemma {:induction false} FailureLinesLast(failures: seq<FailureSummary>)
    requires failures != []
    ensures FailureLines(failures) == FailureLines(failures[..|failures| - 1]) + FailureLine(failures[|failures| - 1])
    decreases |failures|
  {
    if |failures| == 1 {
      assert failures[1..] == [] && failures[..0] == [];
    } else {
      var rest := failures[1..];
      assert rest[..|rest| - 1] == failures[..|failures| - 1][1..];
      assert rest[|rest| - 1] == failures[|failures| - 1];
      FailureLinesLast(rest);
      var init := failures[..|failures| - 1];
      assert init[0] == failures[0];
      calc {
        FailureLines(failures);
        FailureLine(failures[0]) + FailureLines(rest);
        FailureLine(failures[0]) + (FailureLines(rest[..|rest| - 1]) + FailureLine(failures[|failures| - 1]));
        (FailureLine(failures[0]) + FailureLines(init[1..])) + FailureLine(failures[|failures| - 1]);
        FailureLines(init) + FailureLine(failures[|failures| - 1]);
      }
    }
  }

  /** The message is exactly "Success" when there are no failure entries;
      otherwise it is every entry's text, each followed by a line break, in
      declaration order. */
  lemma StatusMessageMeaning(failures: seq<FailureSummary>)
    ensures StatusMessage(failures) == "Success" <==> failures == []
    ensures failures != [] ==> StatusMessage(failures) == FailureLines(failures)
  {
    AppendedIsFailureLines(failures);
    if failures != [] {
      var built := AppendedFailures(failures);
      assert built[|built| - 1] == '\n';
      assert "Success"[6] == 's';
    }
  }

  /** `Time.getStart()` and `Time.getStop()`. */
  function StartOf(t: Time): Option<int>
  {
    if t.Window? then Some(t.start) else None
  }

  function StopOf(t: Time): Option<int>
  {
    if t.Window? then Some(t.stop) else None
  }

  /** The test's time: first step's start to last step's stop when there are
      steps (unboxed by `Time.create`), the `Duration` otherwise. */
  function TestTime(steps: seq<Step>, duration: Option<real>): Outcome<Time>
  {
    if |steps| > 0 then
      var startTime, endTime := StartOf(steps[0].time), StopOf(steps[|steps| - 1].time);
      if startTime.Some? && endTime.Some? then Normal(Window(startTime.value, endTime.value)) else NullPointer
    else
      Normal(DurationOnly(GetTimeInMilliseconds(duration)))
  }

  /** The `TestResult` that `processTest` fills in and hands to the visitor. */
  function AssembleResult(suite: Option<string>, test: TestNode, group: Option<string>,
                          status: Status, activities: ActivityResult, time: Time): TestResult
  {
    TestResult(
      testId := test.testIdentifier,
      historyId := HistoryId(suite, group, test.testName),
      name := DisplayName(test.testName),
      labels := Labels(group),
      uid := test.testSummaryGuid,
      status := status,
      flaky := IsFlaky(test),
      time := time,
      testStage := StageResult(test.testName, activities.status, activities.steps, time),
      statusMessage := StatusMessage(test.failureSummaries))
  }

  /** `processTest`: `getStatus` throws on a null `TestStatus` before any
      activity is walked; a throw in the activities loses the result. */
  function WalkTest(suite: Option<string>, test: TestNode, group: Option<string>, file: ResultFile): Walk<()>
  {
    match GetStatus(test.testStatus)
    case NullPointer => Walk([], NullPointer)
    case Normal(status) =>
      var acts := WalkActivities(file.attachmentDir, test.activitySummaries, file.existing);
      match acts.outcome
      case NullPointer => Walk(acts.visits, NullPointer)
      case Normal(ar) =>
        match TestTime(ar.steps, test.duration)
        case NullPointer => Walk(acts.visits, NullPointer)
        case Normal(time) =>
          Walk(acts.visits + [TestResultVisited(AssembleResult(suite, test, group, status, ar, time))], Normal(()))
  }

  /** Runs `next` after `first` unless `first` threw. */
  function Then(first: Walk<()>, next: Walk<()>): Walk<()>
  {
    match first.outcome
    case NullPointer => first
    case Normal(_) => Walk(first.visits + next.visits, next.outcome)
  }

  /** `processTestObject`: a group walks its `Subtests` as their parent; a
      test is processed only under a parent, named by the parent's
      `TestName`; anything else is skipped. */
  function WalkObject(suite: Option<string>, node: TestNode, parent: Option<TestNode>, file: ResultFile): Walk<()>
    decreases node
  {
    if node.testObjectClass == Some(GroupMarker) then
      WalkObjects(suite, node.subtests, Some(node), file)
    else if node.testObjectClass == Some(TestMarker) then
      if parent.Some? then WalkTest(suite, node, parent.value.testName, file) else Walk([], Normal(()))
    else
      Walk([], Normal(()))
  }

  /** The `forEach` over sibling nodes; an exception ends it. */
  function WalkObjects(suite: Option<string>, nodes: seq<TestNode>, parent: Option<TestNode>, file: ResultFile): Walk<()>
    decreases nodes
  {
    if nodes == [] then Walk([], Normal(()))
    else Then(WalkObjects(suite, nodes[..|nodes| - 1], parent, file),
              WalkObject(suite, nodes[|nodes| - 1], parent, file))
  }

  /** The `forEach` over `TestableSummaries`, each one `processTestSummary`. */
  function WalkSummaries(summaries: seq<TestableSummary>, file: ResultFile): Walk<()>
  {
    if summaries == [] then Walk([], Normal(()))
    else
      var s := summaries[|summaries| - 1];
      Then(WalkSummaries(summaries[..|summaries| - 1], file), WalkObjects(s.testName, s.tests, None, file))
  }

  /** `processTestSummaries`: the catch keeps what was visited before a
      throw; an unreadable file visits nothing. */
  function FileVisits(file: ResultFile): seq<Event>
  {
    match file.plist
    case None => []
    case Some(doc) => WalkSummaries(doc.testableSummaries, file).visits
  }

  /** `readResults`: every listed file in turn. */
  function ReadVisits(files: seq<ResultFile>): seq<Event>
  {
    if files == [] then [] else ReadVisits(files[..|files| - 1]) + FileVisits(files[|files| - 1])
  }

  /** One more sibling, one more suite, one more file: the step of each loop. */
  lemma WalkObjectsStep(suite: Option<string>, nodes: seq<TestNode>, i: nat, parent: Option<TestNode>, file: ResultFile)
    requires i < |nodes|
    ensures WalkObjects(suite, nodes[..i + 1], parent, file) ==
      Then(WalkObjects(suite, nodes[..i], parent, file), WalkObject(suite, nodes[i], parent, file))
  {
    assert nodes[..i + 1][..i] == nodes[..i];
  }

  lemma WalkSummariesStep(summaries: seq<TestableSummary>, i: nat, file: ResultFile)
    requires i < |summaries|
    ensures WalkSummaries(summaries[..i + 1], file) ==
      Then(WalkSummaries(summaries[..i], file), WalkObjects(summaries[i].testName, summaries[i].tests, None, file))
  {
    assert summaries[..i + 1][..i] == summaries[..i];
  }

  lemma ReadVisitsStep(files: seq<ResultFile>, i: nat)
    requires i < |files|
    ensures ReadVisits(files[..i + 1]) == ReadVisits(files[..i]) + FileVisits(files[i])
  {
    assert files[..i + 1][..i] == files[..i];
  }

  // Reference definitions

  /** A test reached by the walk: its suite, its node and its parent's name. */
  datatype TestCase = TestCase(suite: Option<string>, test: TestNode, group: Option<string>)

  /** The tests the walk reaches, in pre-order. */
  function ReachableOne(suite: Option<string>, node: TestNode, parent: Option<TestNode>): seq<TestCase>
    decreases node
  {
    if node.testObjectClass == Some(GroupMarker) then Reachable(suite, node.subtests, Some(node))
    else if node.testObjectClass == Some(TestMarker) && parent.Some? then [TestCase(suite, node, parent.value.testName)]
    else []
  }

  function Reachable(suite: Option<string>, nodes: seq<TestNode>, parent: Option<TestNode>): seq<TestCase>
    decreases nodes
  {
    if nodes == [] then []
    else Reachable(suite, nodes[..|nodes| - 1], parent) + ReachableOne(suite, nodes[|nodes| - 1], parent)
  }

  /** The tests of every suite of a document, in order. */
  function DocumentCases(summaries: seq<TestableSummary>): seq<TestCase>
  {
    if summaries == [] then []
    else
      var s := summaries[|summaries| - 1];
      DocumentCases(summaries[..|summaries| - 1]) + Reachable(s.testName, s.tests, None)
  }

  /** Processing a flat list of tests one after the other. */
  function WalkCases(cases: seq<TestCase>, file: ResultFile): Walk<()>
  {
    if cases == [] then Walk([], Normal(()))
    else
      var c := cases[|cases| - 1];
      Then(WalkCases(cases[..|cases| - 1], file), WalkTest(c.suite, c.test, c.group, file))
  }

  /** A test is processed without an exception. */
  ghost predicate Completes(c: TestCase)
  {
    c.test.testStatus.Some? && AllTimed(c.test.activitySummaries)
  }

  ghost predicate AllComplete(cases: seq<TestCase>)
  {
    forall k :: 0 <= k < |cases| ==> Completes(cases[k])
  }

  lemma AllCompleteSnoc(init: seq<TestCase>, c: TestCase)
    ensures AllComplete(init + [c]) <==> AllComplete(init) && Completes(c)
  {
    var cases := init + [c];
    assert forall k :: 0 <= k < |init| ==> cases[k] == init[k];
    assert cases[|init|] == c;
  }

  /** The result a completing test produces: the status from `TestStatus`,
      the rollup only on the stage, no steps, the time from `Duration`. */
  ghost function ExpectedResult(c: TestCase): TestResult
    requires c.test.testStatus.Some?
  {
    var time := DurationOnly(GetTimeInMilliseconds(c.test.duration));
    var rollup := if HasAssertionFailure(c.test.activitySummaries) then Failed else Passed;
    AssembleResult(c.suite, c.test, c.group, GetStatus(c.test.testStatus).value, ActivityResult(rollup, []), time)
  }

  /** The visits of completing tests: each test's attachments in post-order,
      then its result. */
  ghost function ExpectedVisits(cases: seq<TestCase>, file: ResultFile): seq<Event>
    requires AllComplete(cases)
  {
    if cases == [] then []
    else
      var c := cases[|cases| - 1];
      AllCompleteSnoc(cases[..|cases| - 1], c);
      assert cases == cases[..|cases| - 1] + [c];
      ExpectedVisits(cases[..|cases| - 1], file) +
      TreeVisits(file.attachmentDir, c.test.activitySummaries, file.existing) +
      [TestResultVisited(ExpectedResult(c))]
  }

  // Lemmas

  /** One test: a null `TestStatus` throws before anything is visited; a
      missing activity time throws after a prefix of the attachment visits;
      otherwise the attachments are visited and then exactly one result. */
  lemma WalkTestMeaning(c: TestCase, file: ResultFile)
    ensures WalkTest(c.suite, c.test, c.group, file).outcome.Normal? <==> Completes(c)
    ensures c.test.testStatus.None? ==> WalkTest(c.suite, c.test, c.group, file).visits == []
    ensures !Completes(c) ==>
      WalkTest(c.suite, c.test, c.group, file).visits <=
        TreeVisits(file.attachmentDir, c.test.activitySummaries, file.existing)
    ensures Completes(c) ==>
      WalkTest(c.suite, c.test, c.group, file).visits ==
        TreeVisits(file.attachmentDir, c.test.activitySummaries, file.existing) + [TestResultVisited(ExpectedResult(c))]
  {
    WalkActivitiesMeaning(file.attachmentDir, c.test.activitySummaries, file.existing);
  }

  lemma ThenAssociative(a: Walk<()>, b: Walk<()>, c: Walk<()>)
    ensures Then(Then(a, b), c) == Then(a, Then(b, c))
  {
  }

  lemma {:induction false} WalkCasesSplit(a: seq<TestCase>, b: seq<TestCase>, file: ResultFile)
    ensures WalkCases(a + b, file) == Then(WalkCases(a, file), WalkCases(b, file))
    decreases |b|
  {
    if b == [] {
      assert a + b == a;
    } else {
      var init, c := b[..|b| - 1], b[|b| - 1];
      assert (a + b)[..|a + b| - 1] == a + init;
      WalkCasesSplit(a, init, file);
      ThenAssociative(WalkCases(a, file), WalkCases(init, file), WalkTest(c.suite, c.test, c.group, file));
    }
  }

  lemma {:induction false} ReachableSplit(suite: Option<string>, a: seq<TestNode>, b: seq<TestNode>, parent: Option<TestNode>)
    ensures Reachable(suite, a + b, parent) == Reachable(suite, a, parent) + Reachable(suite, b, parent)
    decreases |b|
  {
    if b == [] {
      assert a + b == a;
    } else {
      assert (a + b)[..|a + b| - 1] == a + b[..|b| - 1];
      ReachableSplit(suite, a, b[..|b| - 1], parent);
    }
  }

  /** The tree walk of one node is the in-order processing of the tests it reaches. */
  lemma {:induction false} WalkObjectFlattens(suite: Option<string>, node: TestNode, parent: Option<TestNode>, file: ResultFile)
    ensures WalkObject(suite, node, parent, file) == WalkCases(ReachableOne(suite, node, parent), file)
    decreases node
  {
    if node.testObjectClass == Some(GroupMarker) {
      WalkObjectsFlattens(suite, node.subtests, Some(node), file);
    } else if node.testObjectClass == Some(TestMarker) && parent.Some? {
      var c := TestCase(suite, node, parent.value.testName);
      assert [c][..0] == [];
    }
  }

  /** The tree walk of a sibling list is the in-order processing of the
      tests it reaches. */
  lemma {:induction false} WalkObjectsFlattens(suite: Option<string>, nodes: seq<TestNode>, parent: Option<TestNode>, file: ResultFile)
    ensures WalkObjects(suite, nodes, parent, file) == WalkCases(Reachable(suite, nodes, parent), file)
    decreases nodes
  {
    if nodes != [] {
      var init, last := nodes[..|nodes| - 1], nodes[|nodes| - 1];
      WalkObjectsFlattens(suite, init, parent, file);
      WalkObjectFlattens(suite, last, parent, file);
      WalkCasesSplit(Reachable(suite, init, parent), ReachableOne(suite, last, parent), file);
    }
  }

  lemma {:induction false} DocumentCasesSplit(a: seq<TestableSummary>, b: seq<TestableSummary>)
    ensures DocumentCases(a + b) == DocumentCases(a) + DocumentCases(b)
    decreases |b|
  {
    if b == [] {
      assert a + b == a;
    } else {
      assert (a + b)[..|a + b| - 1] == a + b[..|b| - 1];
      DocumentCasesSplit(a, b[..|b| - 1]);
    }
  }

  /** The walk of a document is the in-order processing of the tests of all its suites. */
  lemma {:induction false} WalkSummariesFlattens(summaries: seq<TestableSummary>, file: ResultFile)
    ensures WalkSummaries(summaries, file) == WalkCases(DocumentCases(summaries), file)
    decreases |summaries|
  {
    if summaries != [] {
      var init, s := summaries[..|summaries| - 1], summaries[|summaries| - 1];
      WalkSummariesFlattens(init, file);
      WalkObjectsFlattens(s.testName, s.tests, None, file);
      WalkCasesSplit(DocumentCases(init), Reachable(s.testName, s.tests, None), file);
    }
  }

  /** Processing tests in order completes exactly when every test completes,
      and then visits each test's attachments followed by its result. */
  lemma {:induction false} WalkCasesComplete(cases: seq<TestCase>, file: ResultFile)
    ensures WalkCases(cases, file).outcome.Normal? <==> AllComplete(cases)
    ensures AllComplete(cases) ==> WalkCases(cases, file).visits == ExpectedVisits(cases, file)
    decreases |cases|
  {
    if cases != [] {
      var init, c := cases[..|cases| - 1], cases[|cases| - 1];
      assert cases == init + [c];
      AllCompleteSnoc(init, c);
      WalkCasesComplete(init, file);
      WalkTestMeaning(c, file);
      var prev, last := WalkCases(init, file), WalkTest(c.suite, c.test, c.group, file);
      assert WalkCases(cases, file) == Then(prev, last);
      if AllComplete(cases) {
        assert prev.visits == ExpectedVisits(init, file);
        assert WalkCases(cases, file).visits == prev.visits + last.visits;
        AppendAssoc(prev.visits, TreeVisits(file.attachmentDir, c.test.activitySummaries, file.existing),
                    [TestResultVisited(ExpectedResult(c))]);
      }
    }
  }

  /** When test `k` is the first that throws, the file keeps the visits of
      the tests before it and the attachments visited before the throw, and
      nothing after it is processed. */
  lemma FirstThrowAborts(cases: seq<TestCase>, k: nat, file: ResultFile)
    requires k < |cases|
    requires AllComplete(cases[..k])
    requires !Completes(cases[k])
    ensures WalkCases(cases, file) ==
      Walk(ExpectedVisits(cases[..k], file) + WalkTest(cases[k].suite, cases[k].test, cases[k].group, file).visits,
           NullPointer)
  {
    var c := cases[k];
    assert cases == cases[..k + 1] + cases[k + 1..];
    assert cases[..k + 1][..k] == cases[..k];
    assert cases[..k + 1][k] == c;
    WalkCasesSplit(cases[..k + 1], cases[k + 1..], file);
    WalkCasesComplete(cases[..k], file);
    WalkTestMeaning(c, file);
    assert WalkCases(cases[..k + 1], file) == Then(WalkCases(cases[..k], file), WalkTest(c.suite, c.test, c.group, file));
  }

  lemma {:induction false} ResultsOfSplit(a: seq<Event>, b: seq<Event>)
    ensures ResultsOf(a + b) == ResultsOf(a) + ResultsOf(b)
    decreases |b|
  {
    if b == [] {
      assert a + b == a;
    } else {
      assert (a + b)[..|a + b| - 1] == a + b[..|b| - 1];
      ResultsOfSplit(a, b[..|b| - 1]);
    }
  }

  lemma {:induction false} NoResultsAmongAttachments(events: seq<Event>)
    requires forall k :: 0 <= k < |events| ==> events[k].AttachmentFileVisited?
    ensures ResultsOf(events) == []
    decreases |events|
  {
    if events != [] {
      NoResultsAmongAttachments(events[..|events| - 1]);
    }
  }

  /** A throw among siblings ends the sibling list. */
  lemma {:induction false} ObjectsThrowStops(suite: Option<string>, nodes: seq<TestNode>, k: nat,
                                             parent: Option<TestNode>, file: ResultFile)
    requires k <= |nodes|
    requires WalkObjects(suite, nodes[..k], parent, file).outcome.NullPointer?
    ensures WalkObjects(suite, nodes, parent, file) == WalkObjects(suite, nodes[..k], parent, file)
    decreases |nodes|
  {
    if k < |nodes| {
      assert nodes[..|nodes| - 1][..k] == nodes[..k];
      ObjectsThrowStops(suite, nodes[..|nodes| - 1], k, parent, file);
    } else {
      assert nodes[..k] == nodes;
    }
  }

  /** A throw in one suite ends the file. */
  lemma {:induction false} SummariesThrowStops(summaries: seq<TestableSummary>, k: nat, file: ResultFile)
    requires k <= |summaries|
    requires WalkSummaries(summaries[..k], file).outcome.NullPointer?
    ensures WalkSummaries(summaries, file) == WalkSummaries(summaries[..k], file)
    decreases |summaries|
  {
    if k < |summaries| {
      assert summaries[..|summaries| - 1][..k] == summaries[..k];
      SummariesThrowStops(summaries[..|summaries| - 1], k, file);
    } else {
      assert summaries[..k] == summaries;
    }
  }

  /** Completing tests produce exactly one result each, in pre-order. */
  lemma {:induction false} OneResultPerTest(cases: seq<TestCase>, file: ResultFile)
    requires AllComplete(cases)
    ensures |ResultsOf(ExpectedVisits(cases, file))| == |cases|
    ensures forall k :: 0 <= k < |cases| ==> ResultsOf(ExpectedVisits(cases, file))[k] == ExpectedResult(cases[k])
    decreases |cases|
  {
    if cases != [] {
      var init, c := cases[..|cases| - 1], cases[|cases| - 1];
      assert cases == init + [c];
      AllCompleteSnoc(init, c);
      OneResultPerTest(init, file);
      ResultsOfExpectedSnoc(init, c, file);
      var results := ResultsOf(ExpectedVisits(cases, file));
      forall k | 0 <= k < |cases|
        ensures results[k] == ExpectedResult(cases[k])
      {
        if k < |init| {
          assert cases[k] == init[k];
        }
      }
    }
  }

  /** One more completing test adds exactly its own result. */
  lemma ResultsOfExpectedSnoc(init: seq<TestCase>, c: TestCase, file: ResultFile)
    requires AllComplete(init + [c])
    ensures AllComplete(init)
    ensures ResultsOf(ExpectedVisits(init + [c], file)) == ResultsOf(ExpectedVisits(init, file)) + [ExpectedResult(c)]
  {
    var cases := init + [c];
    assert cases[..|cases| - 1] == init;
    AllCompleteSnoc(init, c);
    var before := ExpectedVisits(init, file);
    var tree := TreeVisits(file.attachmentDir, c.test.activitySummaries, file.existing);
    var one := [TestResultVisited(ExpectedResult(c))];
    assert ExpectedVisits(cases, file) == before + tree + one;
    assert ResultsOf(one) == [ExpectedResult(c)] by {
      assert one[..0] == [];
    }
    assert ResultsOf(before + tree) == ResultsOf(before) by {
      ResultsOfSplit(before, tree);
      TreeVisitsAreExistingAttachments(file.attachmentDir, c.test.activitySummaries, file.existing);
      NoResultsAmongAttachments(tree);
    }
    ResultsOfSplit(before + tree, one);
  }


  /** What one parsed file emits when no test throws: every reachable test
      of every suite in pre-order, each one's attachments and then exactly
      one result. */
  lemma FileVisitsComplete(file: ResultFile)
    requires file.plist.Some?
    requires AllComplete(DocumentCases(file.plist.value.testableSummaries))
    ensures FileVisits(file) == ExpectedVisits(DocumentCases(file.plist.value.testableSummaries), file)
    ensures |ResultsOf(FileVisits(file))| == |DocumentCases(file.plist.value.testableSummaries)|
  {
    var cases := DocumentCases(file.plist.value.testableSummaries);
    WalkSummariesFlattens(file.plist.value.testableSummaries, file);
    WalkCasesComplete(cases, file);
    OneResultPerTest(cases, file);
  }

  /** What one parsed file emits when test `k` (in pre-order over all suites)
      is the first to throw: everything the earlier tests emitted, then the
      attachments visited before the throw, and no result for test `k` or
      any later test. */
  lemma FileVisitsAbort(file: ResultFile, k: nat)
    requires file.plist.Some?
    requires k < |DocumentCases(file.plist.value.testableSummaries)|
    requires AllComplete(DocumentCases(file.plist.value.testableSummaries)[..k])
    requires !Completes(DocumentCases(file.plist.value.testableSummaries)[k])
    ensures
      var cases := DocumentCases(file.plist.value.testableSummaries);
      FileVisits(file) ==
        ExpectedVisits(cases[..k], file) + WalkTest(cases[k].suite, cases[k].test, cases[k].group, file).visits
    ensures
      var cases := DocumentCases(file.plist.value.testableSummaries);
      ResultsOf(FileVisits(file)) == ResultsOf(ExpectedVisits(cases[..k], file)) &&
      |ResultsOf(FileVisits(file))| == k
  {
    var cases := DocumentCases(file.plist.value.testableSummaries);
    var c := cases[k];
    WalkSummariesFlattens(file.plist.value.testableSummaries, file);
    FirstThrowAborts(cases, k, file);
    WalkTestMeaning(c, file);
    var partial := WalkTest(c.suite, c.test, c.group, file).visits;
    var tree := TreeVisits(file.attachmentDir, c.test.activitySummaries, file.existing);
    TreeVisitsAreExistingAttachments(file.attachmentDir, c.test.activitySummaries, file.existing);
    assert forall j :: 0 <= j < |partial| ==> partial[j] == tree[j];
    NoResultsAmongAttachments(partial);
    ResultsOfSplit(ExpectedVisits(cases[..k], file), partial);
    OneResultPerTest(cases[..k], file);
  }

  /** Files are processed independently: each contributes its own visits. */
  lemma {:induction false} ReadVisitsSplit(a: seq<ResultFile>, b: seq<ResultFile>)
    ensures ReadVisits(a + b) == ReadVisits(a) + ReadVisits(b)
    decreases |b|
  {
    if b == [] {
      assert a + b == a;
    } else {
      var init, f := b[..|b| - 1], b[|b| - 1];
      assert (a + b)[..|a + b| - 1] == a + init;
      assert (a + b)[|a + b| - 1] == f;
      ReadVisitsSplit(a, init);
      AppendAssoc(ReadVisits(a), ReadVisits(init), FileVisits(f));
    }
  }

  /** A skipped node (a test without a parent, or an unrecognised class)
      does not stop its siblings from being processed. */
  lemma SkippedNodeKeepsSiblings(suite: Option<string>, before: seq<TestNode>, node: TestNode, after: seq<TestNode>,
                                 parent: Option<TestNode>, file: ResultFile)
    requires node.testObjectClass != Some(GroupMarker)
    requires node.testObjectClass == Some(TestMarker) ==> parent.None?
    ensures WalkObject(suite, node, parent, file) == Walk([], Normal(()))
    ensures WalkObjects(suite, before + [node] + after, parent, file) ==
            Then(WalkObjects(suite, before, parent, file), WalkObjects(suite, after, parent, file))
  {
    var rb, ra := Reachable(suite, before, parent), Reachable(suite, after, parent);
    assert Reachable(suite, before + [node], parent) == rb by {
      assert (before + [node])[..|before|] == before;
    }
    assert Reachable(suite, before + [node] + after, parent) == rb + ra by {
      ReachableSplit(suite, before + [node], after, parent);
    }
    calc {
      WalkObjects(suite, before + [node] + after, parent, file);
      { WalkObjectsFlattens(suite, before + [node] + after, parent, file); }
      WalkCases(rb + ra, file);
      { WalkCasesSplit(rb, ra, file); }
      Then(WalkCases(rb, file), WalkCases(ra, file));
      { WalkObjectsFlattens(suite, before, parent, file);
        WalkObjectsFlattens(suite, after, parent, file); }
      Then(WalkObjects(suite, before, parent, file), WalkObjects(suite, after, parent, file));
    }
  }

  /** The `Subtests` of a test node are never read. */
  lemma TestSubtestsIgnored(suite: Option<string>, node: TestNode, subtests: seq<TestNode>,
                            parent: Option<TestNode>, file: ResultFile)
    requires node.testObjectClass == Some(TestMarker)
    ensures WalkObject(suite, node.(subtests := subtests), parent, file) == WalkObject(suite, node, parent, file)
  {
  }

  lemma HistoryIdExample()
    ensures HistoryId(Some("Suite"), Some("Foo"), Some("Bar")) == Some("Suite:Foo#Bar")
    ensures HistoryId(None, Some("Foo"), Some("Bar")) == Some("null:Foo#Bar")
  {
    assert ("Suite" + ":") + "Foo" + ("#" + "Bar") == "Suite:Foo#Bar";
    assert ("null" + ":") + "Foo" + ("#" + "Bar") == "null:Foo#Bar";
  }
}
