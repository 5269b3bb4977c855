/**
  The `asg` command: select the autoscaling groups of one application and
  environment that do not run the excluded version, and retire each of them
  gracefully: scale it to zero, wait until its instances are gone, delete the
  group, then delete its launch configuration.
 */
module Asg {
  import opened Fleet

  /** An autoscaling group as listed by the control plane. */
  datatype Group = Group(name: string, launchConfiguration: string, tags: seq<Tag>)

  // ---------------------------------------------------------------------
  // Candidate selection
  // ---------------------------------------------------------------------

  /** True iff some tag of the group has this key and this value. */
  function HasASGTags(g: Group, key: string, value: string): (r: bool)
    ensures r <==> exists i :: 0 <= i < |g.tags| && g.tags[i].key == key && g.tags[i].value == value
    ensures g.tags == [] ==> !r
  {
    HasTag(g.tags, key, value)
  }

  /** A group qualifies iff it carries app and env and does not carry the excluded version. */
  predicate IsCandidate(g: Group, opts: Options) {
    && HasASGTags(g, AppKey, opts.app)
    && HasASGTags(g, EnvKey, opts.env)
    && !HasASGTags(g, VersionKey, opts.exclude)
  }

  /** The qualifying groups of a listing, in listing order. */
  function Candidates(groups: seq<Group>, opts: Options): seq<Group> {
    if groups == [] then []
    else if IsCandidate(groups[0], opts) then [groups[0]] + Candidates(groups[1..], opts)
    else Candidates(groups[1..], opts)
  }

  /** A group is selected iff it was listed and qualifies. */
  lemma {:induction false} CandidateMembership(groups: seq<Group>, opts: Options, g: Group)
    ensures g in Candidates(groups, opts) <==> g in groups && IsCandidate(g, opts)
  {
    if groups != [] {
      CandidateMembership(groups[1..], opts, g);
      assert groups == [groups[0]] + groups[1..];
    }
  }

  /** Selection keeps every copy of a qualifying group and no copy of any other. */
  lemma {:induction false} CandidateCount(groups: seq<Group>, opts: Options, g: Group)
    ensures multiset(Candidates(groups, opts))[g] == if IsCandidate(g, opts) then multiset(groups)[g] else 0
  {
    if groups != [] {
      CandidateCount(groups[1..], opts, g);
      assert groups == [groups[0]] + groups[1..];
    }
  }

  /** Selection keeps the listing order: the candidates are a subsequence of the listing. */
  lemma {:induction false} CandidatesAreSubsequence(groups: seq<Group>, opts: Options)
    ensures IsSubsequence(Candidates(groups, opts), groups)
  {
    if groups != [] {
      CandidatesAreSubsequence(groups[1..], opts);
      var c := Candidates(groups, opts);
      if IsCandidate(groups[0], opts) {
        assert c[1..] == Candidates(groups[1..], opts);
      }
    }
  }

  /** Selection of one listed group, tagged app/env/version. */
  lemma CheckoutScenario()
    ensures
      var opts := Options("", "checkout", "prod", "v42", false);
      var keep := Group("checkout-v41", "lc-v41", [Tag("app", "checkout"), Tag("env", "prod"), Tag("version", "v41")]);
      var excluded := Group("checkout-v42", "lc-v42", [Tag("app", "checkout"), Tag("env", "prod"), Tag("version", "v42")]);
      var other := Group("billing-v41", "lc-b41", [Tag("app", "billing"), Tag("env", "prod"), Tag("version", "v41")]);
      Candidates([keep, excluded, other], opts) == [keep]
  {
    var opts := Options("", "checkout", "prod", "v42", false);
    var keep := Group("checkout-v41", "lc-v41", [Tag("app", "checkout"), Tag("env", "prod"), Tag("version", "v41")]);
    var excluded := Group("checkout-v42", "lc-v42", [Tag("app", "checkout"), Tag("env", "prod"), Tag("version", "v42")]);
    var other := Group("billing-v41", "lc-b41", [Tag("app", "billing"), Tag("env", "prod"), Tag("version", "v41")]);
    assert "app" != "version" by { assert |"app"| != |"version"|; }
    assert "env" != "version" by { assert "env"[0] != "version"[0]; }
    assert "app" != "env" by { assert "app"[0] != "env"[0]; }
    assert "v41" != "v42" by { assert "v41"[2] != "v42"[2]; }
    assert "billing" != "checkout" by { assert "billing"[0] != "checkout"[0]; }
    assert IsCandidate(keep, opts) by {
      assert keep.tags[0] == Tag(AppKey, opts.app);
      assert keep.tags[1] == Tag(EnvKey, opts.env);
    }
    assert !IsCandidate(excluded, opts) by {
      assert excluded.tags[2] == Tag(VersionKey, opts.exclude);
    }
    assert !IsCandidate(other, opts);
    var listed := [keep, excluded, other];
    assert Candidates([other], opts) == [] by {
      assert [other][1..] == [];
    }
    assert Candidates([excluded, other], opts) == [] by {
      assert [excluded, other][1..] == [other];
    }
    assert listed[1..] == [excluded, other];
  }

  /**
    Lists the groups and keeps the candidates, appending them one by one.
    A failed listing is returned as it is, with no candidates.
   */
  method FindASGInstancesToTerminate(listing: Result<seq<Group>, ApiError>, opts: Options)
    returns (r: Result<seq<Group>, ApiError>)
    ensures listing.Failure? ==> r == Failure(listing.error)
    ensures listing.Success? ==> r == Success(Candidates(listing.value, opts))
  {
    if listing.Failure? {
      return Failure(listing.error);
    }
    var groups := listing.value;
    var found: seq<Group> := [];
    var i := 0;
    while i < |groups|
      invariant 0 <= i <= |groups|
      invariant found + Candidates(groups[i..], opts) == Candidates(groups, opts)
    {
      var g := groups[i];
      assert groups[i..][1..] == groups[i + 1..];
      i := i + 1;
      if !HasASGTags(g, AppKey, opts.app) {
        continue;
      }
      if !HasASGTags(g, EnvKey, opts.env) {
        continue;
      }
      if HasASGTags(g, VersionKey, opts.exclude) {
        continue;
      }
      found := found + [g];
    }
    assert groups[i..] == [];
    assert found == Candidates(groups, opts);
    return Success(found);
  }

  // ---------------------------------------------------------------------
  // Retiring one group
  // ---------------------------------------------------------------------

  /** What one poll of a single group returns. */
  datatype Poll =
    | PollFailed(error: ApiError)
    | GroupGone                    // the group is no longer listed
    | GroupFound(members: nat)     // the group is listed with this many instances

  /**
    The control plane's replies to one retirement job, in the order the job
    asks for them. The drain loop never ends by itself, so the script gives
    it a finite number of replies.
   */
  datatype RetirementScript =
    RetirementScript(update: Reply, polls: seq<Poll>, deleteGroup: Reply, deleteLaunchConfiguration: Reply)

  /**
    How a job ends. `StillDraining` means the script ran out while the group
    still had instances: the job would go on polling.
   */
  datatype JobOutcome = Succeeded | Failed(error: ApiError) | StillDraining

  datatype Run = Run(calls: seq<Call>, outcome: JobOutcome)

  /** A poll that ends the drain loop. */
  predicate Terminal(p: Poll) {
    !p.GroupFound? || p.members == 0
  }

  /** The index of the first poll that ends the drain loop, or |polls| if none does. */
  function FirstTerminal(polls: seq<Poll>): (k: nat)
    ensures k <= |polls|
    ensures k < |polls| ==> Terminal(polls[k])
    ensures forall j :: 0 <= j < k ==> !Terminal(polls[j])
  {
    if polls == [] then 0
    else if Terminal(polls[0]) then 0
    else 1 + FirstTerminal(polls[1..])
  }

  /** The calls of `n` polls that each found instances left: a poll, then a sleep. */
  function DrainCalls(name: string, n: nat): (r: seq<Call>)
    ensures |r| == 2 * n
    ensures forall j :: 0 <= j < |r| ==> r[j] == if j % 2 == 0 then DescribeGroup(name) else Sleep(PollInterval)
  {
    if n == 0 then [] else DrainCalls(name, n - 1) + [DescribeGroup(name), Sleep(PollInterval)]
  }

  /**
    The retirement protocol stated by phases: scale to zero; poll until the
    first terminal poll; then, if the group is still there and empty, delete
    the group by force and then its launch configuration. Every phase can
    fail and ends the job.
   */
  function Retirement(g: Group, s: RetirementScript): Run {
    var scaled := [UpdateGroup(g.name, 0, 0, 0)];
    if s.update.Rejected? then Run(scaled, Failed(s.update.error))
    else
      var k := FirstTerminal(s.polls);
      var waited := scaled + DrainCalls(g.name, k);
      if k == |s.polls| then Run(waited, StillDraining)
      else
        var rest := AfterDrain(g, s, s.polls[k]);
        Run(waited + [DescribeGroup(g.name)] + rest.calls, rest.outcome)
  }

  /**
    What follows the terminal poll `p`: nothing after an error or a missing
    group; otherwise the forced delete of this group and, once that is
    accepted, the delete of its launch configuration.
   */
  function AfterDrain(g: Group, s: RetirementScript, p: Poll): (rest: Run)
    ensures forall c :: c in rest.calls ==> c.DeleteGroup? || c.DeleteLaunchConfiguration?
    ensures p.PollFailed? ==> rest == Run([], Failed(p.error))
    ensures p.GroupGone? ==> rest == Run([], Succeeded)
    ensures p.GroupFound? ==>
      && |rest.calls| >= 1 && rest.calls[0] == DeleteGroup(g.name, true)
      && (|rest.calls| == 2 <==> s.deleteGroup.Accepted?)
      && (|rest.calls| == 2 ==> rest.calls[1] == DeleteLaunchConfiguration(g.launchConfiguration))
      && |rest.calls| <= 2
      && (rest.outcome == Succeeded <==> s.deleteGroup.Accepted? && s.deleteLaunchConfiguration.Accepted?)
  {
    match p
    case PollFailed(e) => Run([], Failed(e))
    case GroupGone => Run([], Succeeded)
    case GroupFound(_) =>
      var groupDeleted := [DeleteGroup(g.name, true)];
      if s.deleteGroup.Rejected? then Run(groupDeleted, Failed(s.deleteGroup.error))
      else
        var all := groupDeleted + [DeleteLaunchConfiguration(g.launchConfiguration)];
        if s.deleteLaunchConfiguration.Rejected? then Run(all, Failed(s.deleteLaunchConfiguration.error))
        else Run(all, Succeeded)
  }

  /**
    One retirement job, step by step: the update, the polling loop that
    sleeps after every poll that still finds instances, and the two deletes,
    returning at the first error.
   */
  method TerminateASG(g: Group, s: RetirementScript) returns (calls: seq<Call>, outcome: JobOutcome)
    ensures Run(calls, outcome) == Retirement(g, s)
  {
    // 1. set the capacity to zero
    calls := [UpdateGroup(g.name, 0, 0, 0)];
    if s.update.Rejected? {
      return calls, Failed(s.update.error);
    }

    // 2. wait until the group has no instances
    var i := 0;
    while true
      invariant 0 <= i <= |s.polls|
      invariant forall j :: 0 <= j < i ==> !Terminal(s.polls[j])
      invariant calls == [UpdateGroup(g.name, 0, 0, 0)] + DrainCalls(g.name, i)
      decreases |s.polls| - i
    {
      if i == |s.polls| {
        return calls, StillDraining;
      }
      var poll := s.polls[i];
      calls := calls + [DescribeGroup(g.name)];
      if poll.PollFailed? {
        return calls, Failed(poll.error);
      }
      if poll.GroupGone? {
        return calls, Succeeded;
      }
      if poll.members == 0 {
        break;
      }
      calls := calls + [Sleep(PollInterval)];
      i := i + 1;
    }
    assert FirstTerminal(s.polls) == i;
    ghost var polled := calls;

    // 3. delete the group, then its launch configuration
    calls := calls + [DeleteGroup(g.name, true)];
    if s.deleteGroup.Rejected? {
      return calls, Failed(s.deleteGroup.error);
    }
    calls := calls + [DeleteLaunchConfiguration(g.launchConfiguration)];
    assert calls == polled + [DeleteGroup(g.name, true), DeleteLaunchConfiguration(g.launchConfiguration)];
    if s.deleteLaunchConfiguration.Rejected? {
      return calls, Failed(s.deleteLaunchConfiguration.error);
    }
    return calls, Succeeded;
  }

  // ---------------------------------------------------------------------
  // Properties of one job
  // ---------------------------------------------------------------------

  /** No delete call at all. */
  predicate NoDeletes(calls: seq<Call>) {
    forall j :: 0 <= j < |calls| ==> !calls[j].DeleteGroup? && !calls[j].DeleteLaunchConfiguration?
  }

  /** A call that names this group, its launch configuration, or a pause. */
  predicate Concerns(c: Call, g: Group) {
    match c
    case UpdateGroup(n, _, _, _) => n == g.name
    case DescribeGroup(n) => n == g.name
    case DeleteGroup(n, _) => n == g.name
    case DeleteLaunchConfiguration(n) => n == g.launchConfiguration
    case Sleep(_) => true
    case _ => false
  }

  /**
    The first call scales the group to zero (desired, min and max all 0); if
    it is rejected the job fails with that error and issues nothing else.
   */
  lemma ScaleToZeroFirst(g: Group, s: RetirementScript)
    ensures |Retirement(g, s).calls| >= 1
    ensures Retirement(g, s).calls[0] == UpdateGroup(g.name, 0, 0, 0)
    ensures s.update.Rejected? ==>
      Retirement(g, s).calls == [UpdateGroup(g.name, 0, 0, 0)] && Retirement(g, s).outcome == Failed(s.update.error)
  {
  }

  /** Counting polls and sleeps in the drain phase. */
  lemma {:induction false} DrainCallsCount(name: string, n: nat)
    ensures multiset(DrainCalls(name, n))[DescribeGroup(name)] == n
    ensures multiset(DrainCalls(name, n))[Sleep(PollInterval)] == n
  {
    if n > 0 {
      DrainCallsCount(name, n - 1);
      var pair := [DescribeGroup(name), Sleep(PollInterval)];
      assert multiset(DrainCalls(name, n)) == multiset(DrainCalls(name, n - 1)) + multiset(pair);
      assert multiset(pair) == multiset{DescribeGroup(name), Sleep(PollInterval)};
    }
  }

  /**
    When the (k+1)-th poll is the first terminal one, the job polls exactly
    k+1 times and sleeps exactly k times; when no poll is terminal, it polls
    and sleeps once per scripted poll.
   */
  lemma PollAndSleepCount(g: Group, s: RetirementScript)
    requires s.update.Accepted?
    ensures var calls := Retirement(g, s).calls; var k := FirstTerminal(s.polls);
      && multiset(calls)[DescribeGroup(g.name)] == (if k < |s.polls| then k + 1 else k)
      && multiset(calls)[Sleep(PollInterval)] == k
  {
    var k := FirstTerminal(s.polls);
    var waited := [UpdateGroup(g.name, 0, 0, 0)] + DrainCalls(g.name, k);
    var calls := Retirement(g, s).calls;
    RetirementShape(g, s);
    assert multiset(waited)[DescribeGroup(g.name)] == k && multiset(waited)[Sleep(PollInterval)] == k by {
      DrainCallsCount(g.name, k);
    }
    if k < |s.polls| {
      var rest := AfterDrain(g, s, s.polls[k]).calls;
      assert multiset(rest)[DescribeGroup(g.name)] == 0 && multiset(rest)[Sleep(PollInterval)] == 0 by {
        assert DescribeGroup(g.name) !in rest && Sleep(PollInterval) !in rest;
      }
      assert multiset(calls) == multiset(waited) + multiset([DescribeGroup(g.name)]) + multiset(rest);
    }
  }

  /** The trace of a job whose update succeeded: the update, the drain calls, then the terminal poll and what follows it. */
  lemma RetirementShape(g: Group, s: RetirementScript)
    requires s.update.Accepted?
    ensures var k := FirstTerminal(s.polls); var waited := [UpdateGroup(g.name, 0, 0, 0)] + DrainCalls(g.name, k);
      && (k == |s.polls| ==> Retirement(g, s).calls == waited)
      && (k < |s.polls| ==> Retirement(g, s).calls == waited + [DescribeGroup(g.name)] + AfterDrain(g, s, s.polls[k]).calls)
  {
  }

  /**
    Every sleep directly follows a poll, and that poll found the group with
    instances left.
   */
  lemma SleepFollowsOccupiedPoll(g: Group, s: RetirementScript, j: int)
    requires 0 <= j < |Retirement(g, s).calls| && Retirement(g, s).calls[j].Sleep?
    ensures j >= 2 && j % 2 == 0 && Retirement(g, s).calls[j - 1] == DescribeGroup(g.name)
    ensures (j - 2) / 2 < |s.polls| && s.polls[(j - 2) / 2].GroupFound? && s.polls[(j - 2) / 2].members > 0
  {
  }

  /** A failed poll fails the job; nothing is deleted. */
  lemma PollErrorFailsJob(g: Group, s: RetirementScript)
    requires s.update.Accepted?
    requires FirstTerminal(s.polls) < |s.polls| && s.polls[FirstTerminal(s.polls)].PollFailed?
    ensures Retirement(g, s).outcome == Failed(s.polls[FirstTerminal(s.polls)].error)
    ensures NoDeletes(Retirement(g, s).calls)
  {
  }

  /** A group that is no longer listed ends the job successfully; nothing is deleted. */
  lemma GroupGoneSucceeds(g: Group, s: RetirementScript)
    requires s.update.Accepted?
    requires FirstTerminal(s.polls) < |s.polls| && s.polls[FirstTerminal(s.polls)].GroupGone?
    ensures Retirement(g, s).outcome == Succeeded
    ensures NoDeletes(Retirement(g, s).calls)
  {
  }

  /**
    Once a poll finds the group empty, the job force-deletes the group and,
    only if that succeeds, then deletes the launch configuration; the job
    succeeds only if both deletes succeed.
   */
  lemma DeletionOrder(g: Group, s: RetirementScript)
    requires s.update.Accepted?
    requires FirstTerminal(s.polls) < |s.polls| && s.polls[FirstTerminal(s.polls)] == GroupFound(0)
    ensures var run := Retirement(g, s); var n := |run.calls|;
      && (s.deleteGroup.Rejected? ==>
            run.calls[n - 1] == DeleteGroup(g.name, true)
            && DeleteLaunchConfiguration(g.launchConfiguration) !in run.calls
            && run.outcome == Failed(s.deleteGroup.error))
      && (s.deleteGroup.Accepted? ==>
            run.calls[n - 2] == DeleteGroup(g.name, true)
            && run.calls[n - 1] == DeleteLaunchConfiguration(g.launchConfiguration))
      && (run.outcome == Succeeded <==> s.deleteGroup.Accepted? && s.deleteLaunchConfiguration.Accepted?)
  {
  }

  /** Every group delete the job issues is a forced one. */
  lemma DeleteIsForced(g: Group, s: RetirementScript)
    ensures forall j :: 0 <= j < |Retirement(g, s).calls| && Retirement(g, s).calls[j].DeleteGroup? ==>
      Retirement(g, s).calls[j] == DeleteGroup(g.name, true)
  {
  }

  /** The job ends in exactly one way, and only runs out of script while the group still has instances. */
  lemma OutcomeCases(g: Group, s: RetirementScript)
    ensures Retirement(g, s).outcome == StillDraining <==>
      s.update.Accepted? && forall j :: 0 <= j < |s.polls| ==> !Terminal(s.polls[j])
    ensures Retirement(g, s).outcome == Succeeded <==>
      && s.update.Accepted?
      && FirstTerminal(s.polls) < |s.polls|
      && (|| s.polls[FirstTerminal(s.polls)].GroupGone?
          || (s.polls[FirstTerminal(s.polls)].GroupFound?
              && s.deleteGroup.Accepted? && s.deleteLaunchConfiguration.Accepted?))
  {
  }

  /** A job only ever names its own group and launch configuration. */
  lemma RetirementConcernsOwnGroup(g: Group, s: RetirementScript)
    ensures forall c :: c in Retirement(g, s).calls ==> Concerns(c, g)
  {
  }

  // ---------------------------------------------------------------------
  // Dispatch
  // ---------------------------------------------------------------------

  /** How the `asg` command ends. */
  datatype AsgStatus =
    | ListFailed(error: ApiError)       // the process exits with the listing error
    | DryRun(candidates: nat)           // candidates were counted, nothing was started
    | JobsRun(groups: seq<string>)      // one job per candidate, in this order

  /** The calls of the jobs run for `groups`, one after the other. */
  function JobsCalls(groups: seq<Group>, respond: string -> RetirementScript): seq<Call> {
    if groups == [] then []
    else JobsCalls(groups[..|groups| - 1], respond) + Retirement(groups[|groups| - 1], respond(groups[|groups| - 1].name)).calls
  }

  function Names(groups: seq<Group>): (r: seq<string>)
    ensures |r| == |groups| && forall i :: 0 <= i < |groups| ==> r[i] == groups[i].name
  {
    seq(|groups|, i requires 0 <= i < |groups| => groups[i].name)
  }

  lemma NamesSnoc(groups: seq<Group>, g: Group)
    ensures Names(groups + [g]) == Names(groups) + [g.name]
  {
  }

  /**
    The `asg` command: list and select the groups; stop on a listing error
    or in dry-run mode; otherwise run one retirement job per candidate. The
    control plane answers each job according to the job's group name. The
    jobs' errors are not collected.
   */
  method TeardownASG(opts: Options, listing: Result<seq<Group>, ApiError>, respond: string -> RetirementScript)
    returns (calls: seq<Call>, status: AsgStatus)
    requires opts.Valid()
    ensures listing.Failure? || opts.dry ==> forall c :: c in calls ==> !c.IsMutation()
    ensures listing.Failure? ==> calls == [DescribeGroups] && status == ListFailed(listing.error)
    ensures listing.Success? && opts.dry ==>
      calls == [DescribeGroups] && status == DryRun(|Candidates(listing.value, opts)|)
    ensures listing.Success? && !opts.dry ==>
      var candidates := Candidates(listing.value, opts);
      calls == [DescribeGroups] + JobsCalls(candidates, respond) && status == JobsRun(Names(candidates))
  {
    calls := [DescribeGroups];
    var found := FindASGInstancesToTerminate(listing, opts);
    if found.Failure? {
      return calls, ListFailed(found.error);
    }
    var candidates := found.value;
    if opts.dry {
      return calls, DryRun(|candidates|);
    }
    var started: seq<string> := [];
    var i := 0;
    while i < |candidates|
      invariant 0 <= i <= |candidates|
      invariant calls == [DescribeGroups] + JobsCalls(candidates[..i], respond)
      invariant started == Names(candidates[..i])
    {
      var jobCalls, _ := TerminateASG(candidates[i], respond(candidates[i].name));
      assert candidates[..i + 1] == candidates[..i] + [candidates[i]];
      JobsCallsSnoc(candidates[..i], candidates[i], respond);
      NamesSnoc(candidates[..i], candidates[i]);
      Assoc([DescribeGroups], JobsCalls(candidates[..i], respond), jobCalls);
      calls := calls + jobCalls;
      started := started + [candidates[i].name];
      i := i + 1;
    }
    assert candidates[..i] == candidates;
    return calls, JobsRun(started);
  }

  // ---------------------------------------------------------------------
  // Properties of dispatch
  // ---------------------------------------------------------------------

  /** The scale-to-zero updates of a trace, in order. */
  function Updates(calls: seq<Call>): (r: seq<Call>)
    ensures forall c :: c in r ==> c in calls && c.UpdateGroup?
  {
    if calls == [] then []
    else if calls[0].UpdateGroup? then [calls[0]] + Updates(calls[1..])
    else Updates(calls[1..])
  }

  lemma {:induction false} UpdatesAppend(a: seq<Call>, b: seq<Call>)
    ensures Updates(a + b) == Updates(a) + Updates(b)
  {
    if a == [] {
      assert a + b == b;
    } else {
      assert (a + b)[0] == a[0];
      assert (a + b)[1..] == a[1..] + b;
      UpdatesAppend(a[1..], b);
    }
  }

  lemma {:induction false} DrainCallsHaveNoUpdate(name: string, n: nat)
    ensures Updates(DrainCalls(name, n)) == []
  {
    if n > 0 {
      DrainCallsHaveNoUpdate(name, n - 1);
      var pair := [DescribeGroup(name), Sleep(PollInterval)];
      UpdatesAppend(DrainCalls(name, n - 1), pair);
      assert Updates([Sleep(PollInterval)]) == [] by {
        assert [Sleep(PollInterval)][1..] == [];
      }
      assert pair[1..] == [Sleep(PollInterval)];
      assert Updates(pair) == Updates(pair[1..]);
    }
  }

  lemma {:induction false} NoUpdates(calls: seq<Call>)
    requires forall c :: c in calls ==> !c.UpdateGroup?
    ensures Updates(calls) == []
  {
    if calls != [] {
      assert calls[0] in calls;
      NoUpdates(calls[1..]);
    }
  }

  /** Each job issues exactly one update, the scale-to-zero of its group. */
  lemma OneUpdatePerJob(g: Group, s: RetirementScript)
    ensures Updates(Retirement(g, s).calls) == [UpdateGroup(g.name, 0, 0, 0)]
  {
    var k := FirstTerminal(s.polls);
    var drain := DrainCalls(g.name, k);
    var u := [UpdateGroup(g.name, 0, 0, 0)];
    DrainCallsHaveNoUpdate(g.name, k);
    UpdatesAppend(u, drain);
    if s.update.Accepted? && k < |s.polls| {
      var rest := AfterDrain(g, s, s.polls[k]).calls;
      UpdatesAppend(u + drain, [DescribeGroup(g.name)]);
      UpdatesAppend(u + drain + [DescribeGroup(g.name)], rest);
      assert Updates([DescribeGroup(g.name)]) == [] by {
        assert [DescribeGroup(g.name)][1..] == [];
      }
      NoUpdates(rest);
    }
  }

  /**
    Exactly one job is started per candidate, in candidate order: the
    updates of the dispatched trace are the candidates' scale-to-zero calls.
   */
  lemma {:induction false} OneJobPerCandidate(groups: seq<Group>, respond: string -> RetirementScript)
    ensures Updates(JobsCalls(groups, respond)) == seq(|groups|, i requires 0 <= i < |groups| => UpdateGroup(groups[i].name, 0, 0, 0))
  {
    if groups != [] {
      var n := |groups| - 1;
      OneJobPerCandidate(groups[..n], respond);
      OneUpdatePerJob(groups[n], respond(groups[n].name));
      UpdatesAppend(JobsCalls(groups[..n], respond), Retirement(groups[n], respond(groups[n].name)).calls);
    }
  }

  lemma {:induction false} JobsCallsAppend(a: seq<Group>, b: seq<Group>, respond: string -> RetirementScript)
    ensures JobsCalls(a + b, respond) == JobsCalls(a, respond) + JobsCalls(b, respond)
    decreases |b|
  {
    if b == [] {
      assert a + b == a;
    } else {
      var init, last := b[..|b| - 1], b[|b| - 1];
      assert b == init + [last];
      assert a + b == (a + init) + [last];
      JobsCallsAppend(a, init, respond);
      JobsCallsSnoc(a + init, last, respond);
      JobsCallsSnoc(init, last, respond);
      Assoc(JobsCalls(a, respond), JobsCalls(init, respond), Retirement(last, respond(last.name)).calls);
    }
  }

  /**
    Failure isolation: whatever the other jobs do, the trace holds the k-th
    candidate's whole retirement run, preceded by the earlier jobs' runs and
    followed by the later ones'.
   */
  lemma JobIsolation(groups: seq<Group>, respond: string -> RetirementScript, k: nat)
    requires k < |groups|
    ensures JobsCalls(groups, respond) ==
      JobsCalls(groups[..k], respond) + Retirement(groups[k], respond(groups[k].name)).calls + JobsCalls(groups[k + 1..], respond)
  {
    var before, after := groups[..k], groups[k + 1..];
    var g := groups[k];
    SplitAt(groups, k);
    JobsCallsSnoc(before, g, respond);
    JobsCallsAppend(before + [g], after, respond);
  }

  lemma JobsCallsSnoc(groups: seq<Group>, g: Group, respond: string -> RetirementScript)
    ensures JobsCalls(groups + [g], respond) == JobsCalls(groups, respond) + Retirement(g, respond(g.name)).calls
  {
  }

  /** Every call of the dispatched jobs names one of the candidates (or is a pause). */
  lemma {:induction false} JobsConcernCandidates(groups: seq<Group>, respond: string -> RetirementScript)
    ensures forall c :: c in JobsCalls(groups, respond) ==> exists i :: 0 <= i < |groups| && Concerns(c, groups[i])
  {
    if groups != [] {
      var n := |groups| - 1;
      JobsConcernCandidates(groups[..n], respond);
      RetirementConcernsOwnGroup(groups[n], respond(groups[n].name));
      forall c | c in JobsCalls(groups, respond)
        ensures exists i :: 0 <= i < |groups| && Concerns(c, groups[i])
      {
        if c in JobsCalls(groups[..n], respond) {
          var i :| 0 <= i < n && Concerns(c, groups[..n][i]);
          assert groups[i] == groups[..n][i];
        } else {
          assert Concerns(c, groups[n]);
        }
      }
    }
  }
}
