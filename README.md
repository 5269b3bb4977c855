# deploytool teardown — a Dafny model

deploytool's `teardown` tool retires the old version of an application in
one environment. It has two commands that share one set of options
(region, app, env, exclude, dry):

- `asg` lists the autoscaling groups and selects those tagged `app=<app>` and
  `env=<env>` and not tagged `version=<exclude>`. Unless it is a dry run, it
  then retires each selected group: it scales the group to zero, polls it
  every 15 seconds until it has no instances left (or is gone), force-deletes
  the group and then deletes the group's launch configuration.
- `ec2` asks the control plane for the instances tagged with the app and env.
  It drops every instance tagged `version=<exclude>` and, unless nothing is
  left or it is a dry run, terminates the rest with one bulk call.

The model replaces the cloud control plane by scripted replies, passed in as
parameters. Every request the tool makes, and every pause of the drain loop,
is appended to a trace of `Call` values, so the properties are stated about
that trace and the outcome.

- `fleet.dfy` (module `Fleet`): tags, options, control-plane replies, the
  `Call` trace alphabet, the shared tag search and a subsequence predicate.
- `asg.dfy` (module `Asg`): candidate selection, the retirement job
  (`TerminateASG`, proved equal to the phase-by-phase specification
  `Retirement`) and the dispatch (`TeardownASG`).
- `ec2.dfy` (module `Ec2`): the tag test, id collection over reservations and
  the terminate decision (`TeardownEC2`).

The loops of the source (candidate filter, drain loop, dispatch loop, nested
id-collection loop) are methods with loop invariants. Each is proved equal to
a recursive specification function, and the properties are lemmas about
those functions. No object of the source is updated in place, so there are
no classes.

Three facts about the code shape the model:

- The retirement job deletes the group's launch configuration, named by the
  listed group (asg.go:83-89).
- The dispatcher starts each job and drops the error it returns (asg.go:29-34).
  Nothing collects the failures of the jobs.
- The candidate count is logged before the dry-run test (asg.go:22), and a dry
  run then only returns (asg.go:24-27).

## Model

| member | source | states |
|---|---|---|
| Fleet.HasTag | asg.go:118-126 | the linear tag search is true iff the list holds a tag with exactly this key and this value |
| Asg.HasASGTags | asg.go:118-126 | true iff some tag of the group matches both key and value; a group without tags gives false |
| Asg.CandidateMembership | asg.go:101-113 | a group is selected iff it was listed, has app=App, has env=Env and has no version=Exclude |
| Asg.CandidateCount | asg.go:100-113 | a qualifying group is selected as many times as it was listed; any other group not at all |
| Asg.CandidatesAreSubsequence | asg.go:100-115 | the selected groups are a subsequence of the listing, so listing order is kept |
| Asg.CheckoutScenario | asg.go:101-113 | of groups tagged checkout/prod/v41, checkout/prod/v42 and billing/prod/v41, with exclude v42, only the first is selected |
| Asg.FindASGInstancesToTerminate | asg.go:94-116 | a failed listing returns its error and no candidates; otherwise the append loop returns exactly the selected groups in order |
| Asg.FirstTerminal | asg.go:52-71 | the drain loop stops at the first poll that errors, finds no group or finds zero instances; every earlier poll found instances |
| Asg.DrainCalls | asg.go:52-71 | each non-terminal poll contributes a describe call followed by one 15-second sleep, alternating |
| Asg.AfterDrain | asg.go:56-91 | after a failed poll the job issues no call and fails with its error; after a missing group it issues none and succeeds; after an empty group it issues the forced delete of its own group first, then its own launch-configuration delete exactly when the group delete was accepted, and nothing more; it succeeds iff both deletes are accepted |
| Asg.TerminateASG | asg.go:37-92 | the step-by-step job (update, polling loop with break and early returns, two deletes) produces exactly the trace and outcome of the phase specification |
| Asg.ScaleToZeroFirst | asg.go:40-49 | the first call sets desired, min and max capacity to 0; if it fails, the job fails with that error and makes no other call |
| Asg.DrainCallsCount | asg.go:52-71 | n non-terminal polls give exactly n describe calls and n sleeps |
| Asg.PollAndSleepCount | asg.go:52-71 | if the k-th poll is the first terminal one, the job polls exactly k times and sleeps k-1 times; if none is terminal, polls and sleeps are equal in number |
| Asg.SleepFollowsOccupiedPoll | asg.go:65-70 | every sleep comes right after a poll, and that poll found the group with instances left |
| Asg.PollErrorFailsJob | asg.go:53-58 | a failing poll fails the job with its error and no delete is issued |
| Asg.GroupGoneSucceeds | asg.go:60-63 | a poll that no longer finds the group ends the job successfully, with no delete |
| Asg.DeletionOrder | asg.go:73-91 | once the group is empty, the forced group delete comes before the launch-configuration delete; a failed group delete means the launch configuration is not deleted; the job succeeds iff both deletes succeed |
| Asg.DeleteIsForced | asg.go:75-78 | every group delete names the job's group and has ForceDelete set |
| Asg.OutcomeCases | asg.go:37-92 | the job ends still draining iff the update succeeded and no scripted poll was terminal; it succeeds iff the group was gone or both deletes succeeded |
| Asg.RetirementConcernsOwnGroup | asg.go:37-92 | every call of a job names its own group or its own launch configuration, or is a sleep |
| Asg.TeardownASG | asg.go:13-35 | a listing error or a dry run issues no fleet-changing call; a listing error stops the run before the dry-run check; a dry run makes only the listing call; otherwise one retirement job runs per candidate, in order, and the trace is the listing call followed by the jobs' traces |
| Asg.OneUpdatePerJob | asg.go:41-46 | a job issues exactly one capacity update, the scale-to-zero of its own group |
| Asg.OneJobPerCandidate | asg.go:29-34 | the capacity updates of the dispatched trace are exactly one scale-to-zero per candidate, in candidate order |
| Asg.JobIsolation | asg.go:29-34 | whatever the other jobs' replies, the dispatched trace contains each candidate's complete job trace between those of the earlier and the later candidates |
| Asg.JobsConcernCandidates | asg.go:29-34 | every dispatched call names a candidate group or its launch configuration, or is a sleep |
| Ec2.HasEC2Tag | ec2.go:11-21 | false for a nil or empty tag list; otherwise true iff some tag matches both key and value |
| Ec2.FlattenMembership | ec2.go:49-50 | an instance is visited iff it belongs to one of the reservations |
| Ec2.KeptIdsMembership | ec2.go:48-56 | an id is collected iff some visited instance with that id lacks tag version=Exclude |
| Ec2.KeptIdsCount | ec2.go:48-56 | an id is collected once per listed instance carrying it when none of those instances is excluded, and fewer times when one is |
| Ec2.KeptIdsAreSubsequence | ec2.go:48-56 | the collected ids keep reservation order, then instance order |
| Ec2.CollectInstanceIds | ec2.go:48-56 | the nested append loop returns exactly the ids of the non-excluded instances across all reservations |
| Ec2.TeardownEC2 | ec2.go:23-78 | a describe error or a dry run issues no fleet-changing call; describe comes first; a describe error aborts with no terminate call; an empty id list makes no terminate call, even in a dry run; a dry run with ids makes none; otherwise exactly one terminate call is made, with exactly the collected ids |
| Ec2.TerminatedAreCandidates | ec2.go:28-56 | if the control plane applies the app/env filter, every id sent for termination belongs to an instance tagged app and env and not tagged with the excluded version |

## Left out

- The cloud SDK clients and network calls are not modelled. Every reply is a scripted parameter, and every request is recorded as a `Call`.
- The app/env filter of the instance describe call is evaluated by the control plane. It is the predicate `Ec2.ServerFiltered`, an assumption of `Ec2.TerminatedAreCandidates`, and it is not a step of the model.
- Goroutines and the wait group are not modelled. The retirement jobs run one after another. Each job's trace depends only on its own group and the replies for that group's name, so the order does not change per-group behaviour. Interleavings across groups are not modelled.
- Asg.TerminateASG: the drain loop has no bound in the source. The script holds a finite list of polls, and the extra outcome `StillDraining` stands for a job that would still be polling when the script runs out.
- The control plane answers every job of one group name with the same script (`respond: string -> RetirementScript`). Two listed groups with the same name would therefore get identical replies.
- `time.Sleep` is recorded as a `Sleep(15)` call. Time itself is not modelled.
- Logging is not modelled. This includes the mis-formatted count message after termination (ec2.go:77) and the progress messages of asg.go.
- `log.Fatalln` exits become the outcomes `ListFailed` (asg) and `Fatal` (ec2).
- The job errors discarded by the dispatcher are not returned. `TeardownASG` returns the trace and the list of groups a job was started for.
- The `TerminatingInstances` content of the terminate reply is only logged by the source, so it is not modelled.
- Command-line parsing, environment variables and the `cli` wiring in main.go are not modelled. The three non-empty checks on app, env and exclude become the precondition `Options.Valid()`. The region is never checked.
- Nil tag keys and values, which the source dereferences, are not modelled: a tag is a pair of strings. A nil tag list on an instance is `None`.
- Group and launch-configuration names are plain strings, so every listed group has both. The source dereferences `AutoScalingGroupName` (asg.go:74) and `LaunchConfigurationName` (asg.go:83) without a nil check; a listed group without a launch configuration name (one launched from a launch template) makes its job panic right after the forced group delete, which ends the whole process, the other jobs included. That panic is not modelled.
- The group listing is the reply to one `DescribeAutoScalingGroups` call without a `NextToken` (asg.go:95). The source never asks for further pages, so only the groups of the first page are considered; `listing` stands for that one page.
