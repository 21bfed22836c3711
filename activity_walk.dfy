/** What `processActivities` does for one list of activities, as functions:
    the visitor calls it makes, and whether it returns or throws. The
    lemmas compare it with reference definitions that ignore exceptions. */
module ActivityWalk {
  import opened Wrappers
  import opened Allure
  import opened Plist

  /** `ActivityResult`: a rolled-up status and the collected steps. */
  datatype ActivityResult = ActivityResult(status: Status, steps: seq<Step>)

  /** The visitor calls made by a walk, and how the walk completed. */
  datatype Walk<T> = Walk(visits: seq<Event>, outcome: Outcome<T>)

  /** `rootDirectory.resolve(name)` for a relative name. */
  function Resolve(dir: string, name: string): string
  {
    dir + "/" + name
  }

  /** `resolveAttachmentPath`: the resolved path when a name is given and the
      file exists; an invalid path counts as one that does not exist. */
  function ResolveAttachmentPath(dir: string, name: Option<string>, existing: set<string>): (r: Option<string>)
    ensures r.Some? <==> name.Some? && Resolve(dir, name.value) in existing
    ensures r.Some? ==> r.value == Resolve(dir, name.value)
  {
    match name
    case None => None
    case Some(n) => if Resolve(dir, n) in existing then Some(Resolve(dir, n)) else None
  }

  /** The `visitAttachmentFile` calls made by the attachment stream of one
      activity, in declaration order. */
  function AttachmentVisits(dir: string, configs: seq<AttachmentConfig>, existing: set<string>): (r: seq<Event>)
    ensures |r| <= |configs|
    ensures forall k :: 0 <= k < |r| ==> r[k].AttachmentFileVisited? && r[k].path in existing
  {
    if configs == [] then []
    else
      AttachmentVisits(dir, configs[..|configs| - 1], existing) +
      match ResolveAttachmentPath(dir, configs[|configs| - 1].filename, existing)
      case Some(path) => [AttachmentFileVisited(path)]
      case None => []
  }

  /** The status of one activity, given the steps and status of its
      sub-activities. */
  function Classify(activityType: Option<string>, childSteps: seq<Step>, childStatus: Status): Status
  {
    if activityType == Some(AssertionFailureType) then Failed
    else if childSteps != [] then childStatus
    else Passed
  }

  /** One pass of the loop body of `processActivities`: `endTime - startTime`
      unboxes both times, then the sub-activities are walked, then this
      activity's attachments are visited. The result is the activity's status. */
  function WalkActivity(dir: string, a: Activity, existing: set<string>): Walk<Status>
    decreases a
  {
    if a.startTimeInterval.None? || a.finishTimeInterval.None? then Walk([], NullPointer)
    else
      var sub := WalkActivities(dir, a.subActivities, existing);
      match sub.outcome
      case NullPointer => Walk(sub.visits, NullPointer)
      case Normal(subResult) =>
        Walk(sub.visits + AttachmentVisits(dir, a.attachments, existing),
             Normal(Classify(a.activityType, subResult.steps, subResult.status)))
  }

  /** `processActivities` over a list: the loop keeps `effectiveStatus`
      (FAILED once any activity is FAILED) and never touches `allSteps`. */
  function WalkActivities(dir: string, acts: seq<Activity>, existing: set<string>): Walk<ActivityResult>
    decreases acts
  {
    if acts == [] then Walk([], Normal(ActivityResult(Passed, [])))
    else Rollup(WalkActivities(dir, acts[..|acts| - 1], existing), WalkActivity(dir, acts[|acts| - 1], existing))
  }

  /** One pass of the loop: nothing more once an earlier activity threw;
      otherwise the activity's visits, and its status folded into
      `effectiveStatus`. */
  function Rollup(prev: Walk<ActivityResult>, last: Walk<Status>): Walk<ActivityResult>
  {
    match prev.outcome
    case NullPointer => prev
    case Normal(acc) =>
      match last.outcome
      case NullPointer => Walk(prev.visits + last.visits, NullPointer)
      case Normal(status) =>
        Walk(prev.visits + last.visits,
             Normal(ActivityResult(if status == Failed then status else acc.status, acc.steps)))
  }

  /** One more attachment entry, one more activity: the step of each loop. */
  lemma AttachmentVisitsStep(dir: string, configs: seq<AttachmentConfig>, i: nat, existing: set<string>)
    requires i < |configs|
    ensures AttachmentVisits(dir, configs[..i + 1], existing) ==
      AttachmentVisits(dir, configs[..i], existing) +
      match ResolveAttachmentPath(dir, configs[i].filename, existing)
      case Some(path) => [AttachmentFileVisited(path)]
      case None => []
  {
    assert configs[..i + 1][..i] == configs[..i];
  }

  lemma WalkActivitiesStep(dir: string, acts: seq<Activity>, i: nat, existing: set<string>)
    requires i < |acts|
    ensures WalkActivities(dir, acts[..i + 1], existing) ==
      Rollup(WalkActivities(dir, acts[..i], existing), WalkActivity(dir, acts[i], existing))
  {
    assert acts[..i + 1][..i] == acts[..i];
  }

  // Reference definitions

  /** Every activity in the tree has both of its times. */
  ghost predicate AllTimed(acts: seq<Activity>)
    decreases acts
  {
    forall k :: 0 <= k < |acts| ==>
      acts[k].startTimeInterval.Some? && acts[k].finishTimeInterval.Some? &&
      AllTimed(acts[k].subActivities)
  }

  /** Some activity of the list itself (not of a sub-list) is an assertion failure. */
  ghost predicate HasAssertionFailure(acts: seq<Activity>)
  {
    exists k :: 0 <= k < |acts| && acts[k].activityType == Some(AssertionFailureType)
  }

  /** All attachment visits of a tree in post-order (every sub-activity's
      before its parent's own), as if no activity threw. */
  function TreeVisits(dir: string, acts: seq<Activity>, existing: set<string>): seq<Event>
    decreases acts
  {
    if acts == [] then []
    else
      var a := acts[|acts| - 1];
      TreeVisits(dir, acts[..|acts| - 1], existing) +
      TreeVisits(dir, a.subActivities, existing) + AttachmentVisits(dir, a.attachments, existing)
  }

  /** Walking a tree only ever visits attachment files that exist. */
  lemma {:induction false} TreeVisitsAreExistingAttachments(dir: string, acts: seq<Activity>, existing: set<string>)
    ensures forall k :: 0 <= k < |TreeVisits(dir, acts, existing)| ==>
      TreeVisits(dir, acts, existing)[k].AttachmentFileVisited? && TreeVisits(dir, acts, existing)[k].path in existing
    decreases acts
  {
    if acts != [] {
      var a := acts[|acts| - 1];
      TreeVisitsAreExistingAttachments(dir, acts[..|acts| - 1], existing);
      TreeVisitsAreExistingAttachments(dir, a.subActivities, existing);
    }
  }

  // Lemmas

  /** The walk of one activity: it throws exactly when some activity of its
      tree lacks a time; otherwise it visits the whole tree in post-order and
      the activity is FAILED exactly when it is itself an assertion failure,
      PASSED otherwise (sub-activity statuses never propagate). A walk that
      throws has visited a prefix of the tree's attachments. */
  lemma {:induction false} WalkActivityMeaning(dir: string, a: Activity, existing: set<string>)
    ensures WalkActivity(dir, a, existing).outcome.Normal? <==> AllTimed([a])
    ensures WalkActivity(dir, a, existing).visits <= TreeVisits(dir, [a], existing)
    ensures AllTimed([a]) ==>
      WalkActivity(dir, a, existing) ==
        Walk(TreeVisits(dir, [a], existing),
             Normal(if a.activityType == Some(AssertionFailureType) then Failed else Passed))
    decreases a
  {
    assert [a][..0] == [];
    assert AllTimed([a]) <==>
      a.startTimeInterval.Some? && a.finishTimeInterval.Some? && AllTimed(a.subActivities) by {
      assert [a][0] == a;
    }
    assert TreeVisits(dir, [a], existing) ==
      TreeVisits(dir, a.subActivities, existing) + AttachmentVisits(dir, a.attachments, existing);
    if a.startTimeInterval.Some? && a.finishTimeInterval.Some? {
      WalkActivitiesMeaning(dir, a.subActivities, existing);
      var sub := WalkActivities(dir, a.subActivities, existing);
      if sub.outcome.NullPointer? {
        PrefixExtends(sub.visits, TreeVisits(dir, a.subActivities, existing), AttachmentVisits(dir, a.attachments, existing));
      }
    }
  }

  /** The walk of a list: it throws exactly when some activity of the tree
      lacks a time; otherwise it visits every attachment of the tree in
      post-order, its rollup is FAILED exactly when some activity of the list
      is an assertion failure and PASSED otherwise, and it returns no steps.
      A walk that throws has visited a prefix of the tree's attachments. */
  lemma {:induction false} WalkActivitiesMeaning(dir: string, acts: seq<Activity>, existing: set<string>)
    ensures WalkActivities(dir, acts, existing).outcome.Normal? <==> AllTimed(acts)
    ensures WalkActivities(dir, acts, existing).visits <= TreeVisits(dir, acts, existing)
    ensures AllTimed(acts) ==>
      WalkActivities(dir, acts, existing) ==
        Walk(TreeVisits(dir, acts, existing),
             Normal(ActivityResult(if HasAssertionFailure(acts) then Failed else Passed, [])))
    decreases acts
  {
    if acts != [] {
      var init, a := acts[..|acts| - 1], acts[|acts| - 1];
      var prev := WalkActivities(dir, init, existing);
      var last := WalkActivity(dir, a, existing);
      WalkActivitiesMeaning(dir, init, existing);
      WalkActivityMeaning(dir, a, existing);
      var whole := TreeVisits(dir, acts, existing);
      var head := TreeVisits(dir, init, existing);
      var tail := TreeVisits(dir, [a], existing);
      TreeVisitsSnoc(dir, acts, existing);
      var r := WalkActivities(dir, acts, existing);
      var failed := HasAssertionFailure(init) || a.activityType == Some(AssertionFailureType);
      assert r == Rollup(prev, last);
      RollupMeaning(prev, last, head, tail, HasAssertionFailure(init), a.activityType == Some(AssertionFailureType));
      assert r.outcome.Normal? <==> AllTimed(acts) by {
        AllTimedSplit(acts);
      }
      assert failed <==> HasAssertionFailure(acts) by {
        HasAssertionFailureSplit(acts);
      }
    }
  }

  /** The tree visits of a list are those of all but its last activity,
      then those of the last one. */
  lemma TreeVisitsSnoc(dir: string, acts: seq<Activity>, existing: set<string>)
    requires acts != []
    ensures TreeVisits(dir, acts, existing) ==
      TreeVisits(dir, acts[..|acts| - 1], existing) + TreeVisits(dir, [acts[|acts| - 1]], existing)
  {
    var init, a := acts[..|acts| - 1], acts[|acts| - 1];
    var subs, own := TreeVisits(dir, a.subActivities, existing), AttachmentVisits(dir, a.attachments, existing);
    assert TreeVisits(dir, acts, existing) == TreeVisits(dir, init, existing) + subs + own;
    assert [a][..0] == [] && [a][0] == a;
    var none: seq<Event> := [];
    assert TreeVisits(dir, [], existing) == none;
    assert none + subs + own == subs + own;
    assert TreeVisits(dir, [a], existing) == none + subs + own;
    AppendAssoc(TreeVisits(dir, init, existing), subs, own);
  }

  /** One step of the fold, for walks already known to mean what the lemmas
      above say. */
  lemma RollupMeaning(prev: Walk<ActivityResult>, last: Walk<Status>, head: seq<Event>, tail: seq<Event>,
                      prevFailed: bool, lastFailed: bool)
    requires prev.visits <= head && last.visits <= tail
    requires prev.outcome.Normal? ==> prev == Walk(head, Normal(ActivityResult(if prevFailed then Failed else Passed, [])))
    requires last.outcome.Normal? ==> last == Walk(tail, Normal(if lastFailed then Failed else Passed))
    ensures Rollup(prev, last).outcome.Normal? <==> prev.outcome.Normal? && last.outcome.Normal?
    ensures Rollup(prev, last).visits <= head + tail
    ensures Rollup(prev, last).outcome.Normal? ==>
      Rollup(prev, last) == Walk(head + tail, Normal(ActivityResult(if prevFailed || lastFailed then Failed else Passed, [])))
  {
    if prev.outcome.NullPointer? {
      PrefixExtends(prev.visits, head, tail);
    } else {
      PrefixAppend(head, last.visits, tail);
    }
  }

  lemma PrefixExtends(p: seq<Event>, s: seq<Event>, t: seq<Event>)
    requires p <= s
    ensures p <= s + t
  {
    assert (s + t)[..|s|] == s;
  }

  lemma PrefixAppend(s: seq<Event>, p: seq<Event>, t: seq<Event>)
    requires p <= t
    ensures s + p <= s + t
  {
    assert (s + t)[..|s| + |p|] == s + t[..|p|];
  }

  lemma HasAssertionFailureSplit(acts: seq<Activity>)
    requires acts != []
    ensures HasAssertionFailure(acts) <==>
      HasAssertionFailure(acts[..|acts| - 1]) || acts[|acts| - 1].activityType == Some(AssertionFailureType)
  {
    var init := acts[..|acts| - 1];
    if HasAssertionFailure(init) {
      var k :| 0 <= k < |init| && init[k].activityType == Some(AssertionFailureType);
      assert acts[k] == init[k];
    }
    if HasAssertionFailure(acts) {
      var k :| 0 <= k < |acts| && acts[k].activityType == Some(AssertionFailureType);
      if k < |init| { assert init[k] == acts[k]; }
    }
  }

  lemma AllTimedSplit(acts: seq<Activity>)
    requires acts != []
    ensures AllTimed(acts) <==> AllTimed(acts[..|acts| - 1]) && AllTimed([acts[|acts| - 1]])
  {
    var init := acts[..|acts| - 1];
    assert forall k :: 0 <= k < |init| ==> acts[k] == init[k];
    assert [acts[|acts| - 1]][0] == acts[|acts| - 1];
  }

  /** The activity statuses the walk can produce are PASSED and FAILED only. */
  lemma RollupNeverBroken(dir: string, acts: seq<Activity>, existing: set<string>)
    requires WalkActivities(dir, acts, existing).outcome.Normal?
    ensures WalkActivities(dir, acts, existing).outcome.value.status in {Passed, Failed}
    ensures WalkActivities(dir, acts, existing).outcome.value.steps == []
  {
    WalkActivitiesMeaning(dir, acts, existing);
  }

  /** A missing time at any depth aborts the walk after the visits made
      before it; later siblings are not visited. */
  lemma {:induction false} ThrowStops(dir: string, acts: seq<Activity>, k: nat, existing: set<string>)
    requires k <= |acts|
    requires WalkActivities(dir, acts[..k], existing).outcome.NullPointer?
    ensures WalkActivities(dir, acts, existing) == WalkActivities(dir, acts[..k], existing)
    decreases |acts|
  {
    if k < |acts| {
      assert acts[..|acts| - 1][..k] == acts[..k];
      ThrowStops(dir, acts[..|acts| - 1], k, existing);
    } else {
      assert acts[..k] == acts;
    }
  }

  /** Attachments with no file on disk produce no visit. */
  lemma {:induction false} MissingAttachmentsNotVisited(dir: string, configs: seq<AttachmentConfig>, existing: set<string>)
    requires forall k :: 0 <= k < |configs| ==>
      configs[k].filename.None? || Resolve(dir, configs[k].filename.value) !in existing
    ensures AttachmentVisits(dir, configs, existing) == []
    decreases |configs|
  {
    if configs != [] {
      MissingAttachmentsNotVisited(dir, configs[..|configs| - 1], existing);
    }
  }

  /** When every attachment names an existing file, each is visited once, in
      declaration order. */
  lemma {:induction false} ExistingAttachmentsVisitedInOrder(dir: string, configs: seq<AttachmentConfig>, existing: set<string>)
    requires forall k :: 0 <= k < |configs| ==>
      configs[k].filename.Some? && Resolve(dir, configs[k].filename.value) in existing
    ensures |AttachmentVisits(dir, configs, existing)| == |configs|
    ensures forall k :: 0 <= k < |configs| ==>
      AttachmentVisits(dir, configs, existing)[k] == AttachmentFileVisited(Resolve(dir, configs[k].filename.value))
    decreases |configs|
  {
    if configs != [] {
      ExistingAttachmentsVisitedInOrder(dir, configs[..|configs| - 1], existing);
    }
  }

  /** An attachment entry names a file that exists. */
  predicate Resolves(dir: string, c: AttachmentConfig, existing: set<string>)
  {
    c.filename.Some? && Resolve(dir, c.filename.value) in existing
  }

  /** How many entries of a list name a file that exists. */
  function ResolvingCount(dir: string, configs: seq<AttachmentConfig>, existing: set<string>): nat
  {
    if configs == [] then 0
    else
      ResolvingCount(dir, configs[..|configs| - 1], existing) +
      (if Resolves(dir, configs[|configs| - 1], existing) then 1 else 0)
  }

  /** The attachment stream of any list, missing and existing entries mixed:
      one visit per entry that names an existing file and no other, and the
      visit of such an entry k comes right after those of the resolving
      entries before it, so the visits follow declaration order. */
  lemma {:induction false} AttachmentVisitsMeaning(dir: string, configs: seq<AttachmentConfig>, existing: set<string>)
    ensures |AttachmentVisits(dir, configs, existing)| == ResolvingCount(dir, configs, existing)
    ensures forall k :: 0 <= k < |configs| && Resolves(dir, configs[k], existing) ==>
      ResolvingCount(dir, configs[..k], existing) < |AttachmentVisits(dir, configs, existing)| &&
      AttachmentVisits(dir, configs, existing)[ResolvingCount(dir, configs[..k], existing)] ==
        AttachmentFileVisited(Resolve(dir, configs[k].filename.value))
    decreases |configs|
  {
    if configs != [] {
      var n := |configs|;
      var init := configs[..n - 1];
      AttachmentVisitsMeaning(dir, init, existing);
      var r := AttachmentVisits(dir, configs, existing);
      var ri := AttachmentVisits(dir, init, existing);
      assert r[..|ri|] == ri;
      forall k | 0 <= k < n && Resolves(dir, configs[k], existing)
        ensures ResolvingCount(dir, configs[..k], existing) < |r| &&
          r[ResolvingCount(dir, configs[..k], existing)] == AttachmentFileVisited(Resolve(dir, configs[k].filename.value))
      {
        if k < n - 1 {
          assert init[..k] == configs[..k];
          assert init[k] == configs[k];
        } else {
          assert configs[..k] == init;
        }
      }
    }
  }

  /** Visits of a concatenated list are the visits of its parts. */
  lemma {:induction false} AttachmentVisitsSplit(dir: string, a: seq<AttachmentConfig>, b: seq<AttachmentConfig>,
                                                 existing: set<string>)
    ensures AttachmentVisits(dir, a + b, existing) == AttachmentVisits(dir, a, existing) + AttachmentVisits(dir, b, existing)
    decreases |b|
  {
    if b == [] {
      assert a + b == a;
    } else {
      var init := b[..|b| - 1];
      assert (a + b)[..|a + b| - 1] == a + init;
      assert (a + b)[|a + b| - 1] == b[|b| - 1];
      AttachmentVisitsSplit(dir, a, init, existing);
      var tail := match ResolveAttachmentPath(dir, b[|b| - 1].filename, existing)
        case Some(path) => [AttachmentFileVisited(path)]
        case None => [];
      AppendAssoc(AttachmentVisits(dir, a, existing), AttachmentVisits(dir, init, existing), tail);
    }
  }

  /** An entry with no name or no file on disk contributes nothing, wherever
      it stands among the others. */
  lemma MissingAttachmentSkipped(dir: string, configs: seq<AttachmentConfig>, k: nat, existing: set<string>)
    requires k < |configs| && !Resolves(dir, configs[k], existing)
    ensures AttachmentVisits(dir, configs, existing) ==
      AttachmentVisits(dir, configs[..k] + configs[k + 1..], existing)
  {
    var before, c, after := configs[..k], configs[k], configs[k + 1..];
    assert configs == before + [c] + after;
    AttachmentVisitsSplit(dir, before + [c], after, existing);
    AttachmentVisitsSplit(dir, before, [c], existing);
    AttachmentVisitsSplit(dir, before, after, existing);
    var none: seq<Event> := [];
    assert [c][..0] == [] && AttachmentVisits(dir, [], existing) == none;
    assert AttachmentVisits(dir, [c], existing) == none + none;
    assert AttachmentVisits(dir, before + [c], existing) == AttachmentVisits(dir, before, existing) + none;
  }

  /** A sub-activity's attachment is visited before its parent's. */
  lemma NestedAttachmentFirst(dir: string, child: string, parent: string, existing: set<string>)
    requires Resolve(dir, child) in existing && Resolve(dir, parent) in existing
    ensures
      var inner := Activity(None, None, None, Some(1.0), Some(2.0), [AttachmentConfig(Some(child))], []);
      var outer := Activity(None, None, None, Some(0.0), Some(3.0), [AttachmentConfig(Some(parent))], [inner]);
      WalkActivities(dir, [outer], existing) ==
        Walk([AttachmentFileVisited(Resolve(dir, child)), AttachmentFileVisited(Resolve(dir, parent))],
             Normal(ActivityResult(Passed, [])))
  {
    var inner := Activity(None, None, None, Some(1.0), Some(2.0), [AttachmentConfig(Some(child))], []);
    var outer := Activity(None, None, None, Some(0.0), Some(3.0), [AttachmentConfig(Some(parent))], [inner]);
    var c, p := [AttachmentConfig(Some(child))], [AttachmentConfig(Some(parent))];
    assert [outer][..0] == [] && [inner][..0] == [] && c[..0] == [] && p[..0] == [];
    assert AttachmentVisits(dir, c, existing) == [AttachmentFileVisited(Resolve(dir, child))];
    assert AttachmentVisits(dir, p, existing) == [AttachmentFileVisited(Resolve(dir, parent))];
    assert WalkActivity(dir, inner, existing) ==
      Walk([AttachmentFileVisited(Resolve(dir, child))], Normal(Passed));
    assert WalkActivities(dir, [inner], existing) ==
      Walk([AttachmentFileVisited(Resolve(dir, child))], Normal(ActivityResult(Passed, [])));
    assert WalkActivity(dir, outer, existing) ==
      Walk([AttachmentFileVisited(Resolve(dir, child)), AttachmentFileVisited(Resolve(dir, parent))], Normal(Passed));
  }

  /** An assertion failure nested below a passing activity leaves the rollup PASSED. */
  lemma NestedFailureDoesNotPropagate(dir: string, existing: set<string>)
    ensures
      var failing := Activity(Some(AssertionFailureType), None, None, Some(1.0), Some(1.0), [], []);
      var outer := Activity(None, None, None, Some(0.0), Some(2.0), [], [failing]);
      WalkActivities(dir, [outer], existing).outcome == Normal(ActivityResult(Passed, []))
  {
    var failing := Activity(Some(AssertionFailureType), None, None, Some(1.0), Some(1.0), [], []);
    var outer := Activity(None, None, None, Some(0.0), Some(2.0), [], [failing]);
    assert [outer][..0] == [] && [failing][..0] == [];
    assert WalkActivity(dir, failing, existing) == Walk([], Normal(Failed));
    assert WalkActivities(dir, [failing], existing) == Walk([], Normal(ActivityResult(Failed, [])));
    assert WalkActivity(dir, outer, existing) == Walk([], Normal(Passed));
  }
}
