/** `XcodeResultsBundlePlugin`: the walk over one parsed result file and its
    activities, calling the results visitor as it goes. Each method is proved
    against the function of `ActivityWalk` or `TestWalk` that describes it. */
module XcodeResultsBundlePlugin {
  import opened Wrappers
  import opened Allure
  import opened Plist
  import opened ParserUtils
  import opened ActivityWalk
  import opened TestWalk

  /** `readResults`: processes every listed file; no file's failure stops another. */
  method ReadResults(files: seq<ResultFile>, visitor: ResultsLog)
    modifies visitor
    ensures visitor.events == old(visitor.events) + ReadVisits(files)
  {
    for i := 0 to |files|
      invariant visitor.events == old(visitor.events) + ReadVisits(files[..i])
    {
      ReadVisitsStep(files, i);
      ProcessTestSummaries(files[i], visitor);
      AppendAssoc(old(visitor.events), ReadVisits(files[..i]), FileVisits(files[i]));
    }
    assert files[..|files|] == files;
  }

  /** `processTestSummaries`: the try/catch around one file. Whatever was
      visited before an exception stays visited. */
  method ProcessTestSummaries(file: ResultFile, visitor: ResultsLog)
    modifies visitor
    ensures visitor.events == old(visitor.events) + FileVisits(file)
  {
    match file.plist
    case None =>
    case Some(plist) =>
      var testSummaries := plist.testableSummaries;
      for i := 0 to |testSummaries|
        invariant visitor.events == old(visitor.events) + WalkSummaries(testSummaries[..i], file).visits
        invariant WalkSummaries(testSummaries[..i], file).outcome.Normal?
      {
        WalkSummariesStep(testSummaries, i, file);
        var done := ProcessTestSummary(testSummaries[i], file, visitor);
        AppendAssoc(old(visitor.events), WalkSummaries(testSummaries[..i], file).visits,
                    WalkObjects(testSummaries[i].testName, testSummaries[i].tests, None, file).visits);
        if done.NullPointer? {
          SummariesThrowStops(testSummaries, i + 1, file);
          return;
        }
      }
      assert testSummaries[..|testSummaries|] == testSummaries;
  }

  /** `processTestSummary`: the suite's `Tests`, each without a parent. */
  method ProcessTestSummary(testableSummary: TestableSummary, file: ResultFile, visitor: ResultsLog)
    returns (r: Outcome<()>)
    modifies visitor
    ensures visitor.events ==
      old(visitor.events) + WalkObjects(testableSummary.testName, testableSummary.tests, None, file).visits
    ensures r == WalkObjects(testableSummary.testName, testableSummary.tests, None, file).outcome
  {
    r := ProcessTestObjects(testableSummary.testName, testableSummary.tests, None, file, visitor);
  }

  /** The `forEach` over a list of sibling test nodes; an exception propagates. */
  method ProcessTestObjects(testSuiteName: Option<string>, configs: seq<TestNode>, parentConfig: Option<TestNode>,
                            file: ResultFile, visitor: ResultsLog)
    returns (r: Outcome<()>)
    modifies visitor
    ensures visitor.events == old(visitor.events) + WalkObjects(testSuiteName, configs, parentConfig, file).visits
    ensures r == WalkObjects(testSuiteName, configs, parentConfig, file).outcome
    decreases configs
  {
    for i := 0 to |configs|
      invariant visitor.events ==
        old(visitor.events) + WalkObjects(testSuiteName, configs[..i], parentConfig, file).visits
      invariant WalkObjects(testSuiteName, configs[..i], parentConfig, file).outcome == Normal(())
    {
      WalkObjectsStep(testSuiteName, configs, i, parentConfig, file);
      var done := ProcessTestObject(testSuiteName, configs[i], parentConfig, file, visitor);
      AppendAssoc(old(visitor.events), WalkObjects(testSuiteName, configs[..i], parentConfig, file).visits,
                  WalkObject(testSuiteName, configs[i], parentConfig, file).visits);
      if done.NullPointer? {
        ObjectsThrowStops(testSuiteName, configs, i + 1, parentConfig, file);
        return NullPointer;
      }
      var unit: () := done.value;  // the only value of the unit type
      assert done == Normal(unit) && unit == ();
    }
    assert configs[..|configs|] == configs;
    r := Normal(());
  }

  /** `processTestObject`: dispatch on `TestObjectClass`. */
  method ProcessTestObject(testSuiteName: Option<string>, config: TestNode, parentConfig: Option<TestNode>,
                           file: ResultFile, visitor: ResultsLog)
    returns (r: Outcome<()>)
    modifies visitor
    ensures visitor.events == old(visitor.events) + WalkObject(testSuiteName, config, parentConfig, file).visits
    ensures r == WalkObject(testSuiteName, config, parentConfig, file).outcome
    decreases config
  {
    var testObjectClass := config.testObjectClass;
    if testObjectClass == Some(GroupMarker) {
      r := ProcessTestObjects(testSuiteName, config.subtests, Some(config), file, visitor);
    } else if testObjectClass == Some(TestMarker) {
      if parentConfig.Some? {
        r := ProcessTest(testSuiteName, config, parentConfig.value.testName, file, visitor);
      } else {
        // "Invalid config: parent is null" is logged
        r := Normal(());
      }
    } else {
      // an unrecognised class is logged
      r := Normal(());
    }
  }

  /** `processTest`: builds one result and hands it to the visitor. */
  method ProcessTest(testSuiteName: Option<string>, testConfig: TestNode, testGroup: Option<string>,
                     file: ResultFile, visitor: ResultsLog)
    returns (r: Outcome<()>)
    modifies visitor
    ensures visitor.events == old(visitor.events) + WalkTest(testSuiteName, testConfig, testGroup, file).visits
    ensures r == WalkTest(testSuiteName, testConfig, testGroup, file).outcome
  {
    var testIdentifier := testConfig.testIdentifier;
    var testName := testConfig.testName;
    var historyId := HistoryId(testSuiteName, testGroup, testName);
    var name := DisplayName(testName);
    var labels := Labels(testGroup);

    var testStatus := testConfig.testStatus;
    var testGuid := testConfig.testSummaryGuid;
    var status := GetStatus(testStatus);
    if status.NullPointer? {
      return NullPointer;
    }
    var flaky := IsFlaky(testConfig);

    var activityResult := ProcessActivities(testConfig.activitySummaries, file.attachmentDir, file.existing, visitor);
    if activityResult.NullPointer? {
      return NullPointer;
    }
    var steps := activityResult.value.steps;
    var stageStatus := activityResult.value.status;

    var testTime: Time;
    match TestTime(steps, testConfig.duration)
    case NullPointer =>
      return NullPointer;
    case Normal(t) =>
      testTime := t;
    var stageResult := StageResult(testName, stageStatus, steps, testTime);

    var statusMessage := BuildStatusMessage(testConfig.failureSummaries);
    var result := TestResult(testIdentifier, historyId, name, labels, testGuid, status.value, flaky,
                             testTime, stageResult, statusMessage);
    visitor.VisitTestResult(result);
    r := Normal(());
  }

  /** The `StringBuilder` filled by the `forEach` over `FailureSummaries`. */
  method BuildStatusMessage(failureConfigs: seq<FailureSummary>) returns (message: string)
    ensures message == StatusMessage(failureConfigs)
  {
    var builder := "";
    for i := 0 to |failureConfigs|
      invariant builder == AppendedFailures(failureConfigs[..i])
    {
      AppendedFailuresStep(failureConfigs, i);
      var failureMessage := FailureMessage(failureConfigs[i]);
      builder := builder + failureMessage;
      builder := builder + "\n";
    }
    assert failureConfigs[..|failureConfigs|] == failureConfigs;
    if |builder| == 0 {
      builder := builder + "Success";
    }
    message := builder;
  }

  /** `processActivities`: walks a list of activities, recursing into each
      one's sub-activities before visiting its attachments. */
  method ProcessActivities(activities: seq<Activity>, attachmentDir: string, existing: set<string>, visitor: ResultsLog)
    returns (r: Outcome<ActivityResult>)
    modifies visitor
    ensures visitor.events == old(visitor.events) + WalkActivities(attachmentDir, activities, existing).visits
    ensures r == WalkActivities(attachmentDir, activities, existing).outcome
    decreases activities
  {
    var allSteps: seq<Step> := [];
    var effectiveStatus := Passed;
    for i := 0 to |activities|
      invariant visitor.events == old(visitor.events) + WalkActivities(attachmentDir, activities[..i], existing).visits
      invariant WalkActivities(attachmentDir, activities[..i], existing).outcome ==
        Normal(ActivityResult(effectiveStatus, allSteps))
    {
      WalkActivitiesStep(attachmentDir, activities, i, existing);
      var activityStatus := ProcessActivity(activities[i], attachmentDir, existing, visitor);
      AppendAssoc(old(visitor.events), WalkActivities(attachmentDir, activities[..i], existing).visits,
                  WalkActivity(attachmentDir, activities[i], existing).visits);
      if activityStatus.NullPointer? {
        ThrowStops(attachmentDir, activities, i + 1, existing);
        return NullPointer;
      }
      effectiveStatus := if activityStatus.value == Failed then activityStatus.value else effectiveStatus;
    }
    assert activities[..|activities|] == activities;
    r := Normal(ActivityResult(effectiveStatus, allSteps));
  }

  /** The body of the loop of `processActivities` for one activity: its
      step is built, classified and then dropped; only its status is kept. */
  method ProcessActivity(activityConfig: Activity, attachmentDir: string, existing: set<string>, visitor: ResultsLog)
    returns (r: Outcome<Status>)
    modifies visitor
    ensures visitor.events == old(visitor.events) + WalkActivity(attachmentDir, activityConfig, existing).visits
    ensures r == WalkActivity(attachmentDir, activityConfig, existing).outcome
    decreases activityConfig
  {
    var activityType := activityConfig.activityType;
    var startTime, endTime := activityConfig.startTimeInterval, activityConfig.finishTimeInterval;
    // `endTime - startTime` unboxes both times
    if startTime.None? || endTime.None? {
      return NullPointer;
    }
    var time := GetTime(startTime, Some(endTime.value - startTime.value));

    var subResult := ProcessActivities(activityConfig.subActivities, attachmentDir, existing, visitor);
    if subResult.NullPointer? {
      return NullPointer;
    }
    var childSteps := subResult.value.steps;
    var attachments := VisitAttachments(activityConfig.attachments, attachmentDir, existing, visitor);

    var activityStatus: Status;
    if activityType == Some(AssertionFailureType) {
      activityStatus := Failed;
    } else if childSteps != [] {
      activityStatus := subResult.value.status;
    } else {
      activityStatus := Passed;
    }
    // The step is complete here; it is never added to `allSteps`.
    var step := Step(activityConfig.uuid, activityConfig.title, time, activityStatus, childSteps, attachments);
    r := Normal(activityStatus);
  }

  /** The attachment stream of one activity: `resolveAttachmentPath`, then
      `visitAttachmentFile` for each file found, in declaration order. */
  method VisitAttachments(attachmentConfigs: seq<AttachmentConfig>, attachmentDir: string, existing: set<string>,
                          visitor: ResultsLog)
    returns (attachments: seq<Attachment>)
    modifies visitor
    ensures visitor.events == old(visitor.events) + AttachmentVisits(attachmentDir, attachmentConfigs, existing)
    ensures |attachments| == |AttachmentVisits(attachmentDir, attachmentConfigs, existing)|
    ensures forall k :: 0 <= k < |attachments| ==>
      attachments[k] == Attachment(AttachmentVisits(attachmentDir, attachmentConfigs, existing)[k].path)
  {
    attachments := [];
    for i := 0 to |attachmentConfigs|
      invariant visitor.events == old(visitor.events) + AttachmentVisits(attachmentDir, attachmentConfigs[..i], existing)
      invariant |attachments| == |AttachmentVisits(attachmentDir, attachmentConfigs[..i], existing)|
      invariant forall k :: 0 <= k < |attachments| ==>
        attachments[k] == Attachment(AttachmentVisits(attachmentDir, attachmentConfigs[..i], existing)[k].path)
    {
      AttachmentVisitsStep(attachmentDir, attachmentConfigs, i, existing);
      var filename := attachmentConfigs[i].filename;
      var resolved := ResolveAttachmentPath(attachmentDir, filename, existing);
      if resolved.Some? {
        var attachment := visitor.VisitAttachmentFile(resolved.value);
        attachments := attachments + [attachment];
      }
    }
    assert attachmentConfigs[..|attachmentConfigs|] == attachmentConfigs;
  }
}
