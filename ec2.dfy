/**
  The `ec2` command: describe the instances the control plane reports for
  one application and environment, keep those that do not run the excluded
  version, and terminate them with one bulk call.
 */
module Ec2 {
  import opened Fleet

  /** An instance; its tag list may be absent (nil) or empty. */
  datatype Instance = Instance(id: string, tags: Option<seq<Tag>>)

  /** A group of instances launched together, as the describe call returns them. */
  datatype Reservation = Reservation(instances: seq<Instance>)

  /** False for an absent or empty tag list; otherwise true iff some tag has both key and value. */
  function HasEC2Tag(tags: Option<seq<Tag>>, key: string, value: string): (r: bool)
    ensures tags.None? ==> !r
    ensures tags == Some([]) ==> !r
    ensures tags.Some? ==> (r <==> exists i :: 0 <= i < |tags.value| && tags.value[i].key == key && tags.value[i].value == value)
  {
    if tags.Some? then HasTag(tags.value, key, value) else false
  }

  /** An instance running the excluded version. */
  predicate IsExcluded(inst: Instance, exclude: string) {
    HasEC2Tag(inst.tags, VersionKey, exclude)
  }

  /** All instances, reservation after reservation. */
  function Flatten(rs: seq<Reservation>): seq<Instance> {
    if rs == [] then [] else rs[0].instances + Flatten(rs[1..])
  }

  /** The ids of the instances that are not excluded, in order. */
  function KeptIds(insts: seq<Instance>, exclude: string): seq<string> {
    if insts == [] then []
    else if IsExcluded(insts[0], exclude) then KeptIds(insts[1..], exclude)
    else [insts[0].id] + KeptIds(insts[1..], exclude)
  }

  /** The ids of all instances, in order. */
  function Ids(insts: seq<Instance>): (r: seq<string>)
    ensures |r| == |insts| && forall i :: 0 <= i < |insts| ==> r[i] == insts[i].id
  {
    seq(|insts|, i requires 0 <= i < |insts| => insts[i].id)
  }

  lemma {:induction false} KeptIdsAppend(a: seq<Instance>, b: seq<Instance>, exclude: string)
    ensures KeptIds(a + b, exclude) == KeptIds(a, exclude) + KeptIds(b, exclude)
  {
    if a == [] {
      assert a + b == b;
    } else {
      assert (a + b)[0] == a[0];
      assert (a + b)[1..] == a[1..] + b;
      KeptIdsAppend(a[1..], b, exclude);
    }
  }

  /** An instance is listed iff it belongs to one of the reservations. */
  lemma {:induction false} FlattenMembership(rs: seq<Reservation>, inst: Instance)
    ensures inst in Flatten(rs) <==> exists i :: 0 <= i < |rs| && inst in rs[i].instances
  {
    if rs != [] {
      FlattenMembership(rs[1..], inst);
      if inst in Flatten(rs[1..]) {
        var i :| 0 <= i < |rs[1..]| && inst in rs[1..][i].instances;
        assert rs[i + 1] == rs[1..][i];
      }
      forall i | 1 <= i < |rs| && inst in rs[i].instances
        ensures inst in Flatten(rs[1..])
      {
        assert rs[1..][i - 1] == rs[i];
      }
    }
  }

  /** An id is kept iff some listed instance with that id is not excluded. */
  lemma {:induction false} KeptIdsMembership(insts: seq<Instance>, exclude: string, id: string)
    ensures id in KeptIds(insts, exclude) <==>
      exists i :: 0 <= i < |insts| && insts[i].id == id && !IsExcluded(insts[i], exclude)
  {
    if insts != [] {
      KeptIdsMembership(insts[1..], exclude, id);
      if exists i :: 0 <= i < |insts[1..]| && insts[1..][i].id == id && !IsExcluded(insts[1..][i], exclude) {
        var i :| 0 <= i < |insts[1..]| && insts[1..][i].id == id && !IsExcluded(insts[1..][i], exclude);
        assert insts[i + 1] == insts[1..][i];
      }
      forall i | 1 <= i < |insts| && insts[i].id == id && !IsExcluded(insts[i], exclude)
        ensures id in KeptIds(insts[1..], exclude)
      {
        assert insts[1..][i - 1] == insts[i];
      }
    }
  }

  /** The kept ids keep the listing order: they are a subsequence of all ids. */
  lemma {:induction false} KeptIdsAreSubsequence(insts: seq<Instance>, exclude: string)
    ensures IsSubsequence(KeptIds(insts, exclude), Ids(insts))
  {
    if insts != [] {
      KeptIdsAreSubsequence(insts[1..], exclude);
      assert Ids(insts)[1..] == Ids(insts[1..]);
      if !IsExcluded(insts[0], exclude) {
        assert KeptIds(insts, exclude)[1..] == KeptIds(insts[1..], exclude);
      }
    }
  }

  /**
    Every occurrence of an id among the instances is kept when no instance
    with that id is excluded, and at least one is dropped when one is.
   */
  lemma {:induction false} KeptIdsCount(insts: seq<Instance>, exclude: string, id: string)
    ensures multiset(KeptIds(insts, exclude))[id] <= multiset(Ids(insts))[id]
    ensures (forall i :: 0 <= i < |insts| && insts[i].id == id ==> !IsExcluded(insts[i], exclude)) ==>
      multiset(KeptIds(insts, exclude))[id] == multiset(Ids(insts))[id]
    ensures (exists i :: 0 <= i < |insts| && insts[i].id == id && IsExcluded(insts[i], exclude)) ==>
      multiset(KeptIds(insts, exclude))[id] < multiset(Ids(insts))[id]
  {
    if insts != [] {
      var rest := insts[1..];
      KeptIdsCount(rest, exclude, id);
      assert Ids(insts) == [insts[0].id] + Ids(rest);
      if forall i :: 0 <= i < |insts| && insts[i].id == id ==> !IsExcluded(insts[i], exclude) {
        forall i | 0 <= i < |rest| && rest[i].id == id
          ensures !IsExcluded(rest[i], exclude)
        {
          assert rest[i] == insts[i + 1];
        }
      }
      if exists i :: 0 <= i < |insts| && insts[i].id == id && IsExcluded(insts[i], exclude) {
        var i :| 0 <= i < |insts| && insts[i].id == id && IsExcluded(insts[i], exclude);
        if i > 0 {
          assert rest[i - 1] == insts[i];
        }
      }
    }
  }

  lemma FlattenStep(rs: seq<Reservation>, i: nat)
    requires i < |rs|
    ensures Flatten(rs[i..]) == rs[i].instances + Flatten(rs[i + 1..])
  {
  }

  lemma KeptIdsStep(insts: seq<Instance>, j: nat, exclude: string)
    requires j < |insts|
    ensures IsExcluded(insts[j], exclude) ==> KeptIds(insts[j..], exclude) == KeptIds(insts[j + 1..], exclude)
    ensures !IsExcluded(insts[j], exclude) ==> KeptIds(insts[j..], exclude) == [insts[j].id] + KeptIds(insts[j + 1..], exclude)
  {
  }

  /**
    Walks the reservations and their instances in order and appends the id
    of every instance that is not excluded.
   */
  method CollectInstanceIds(rs: seq<Reservation>, exclude: string) returns (ids: seq<string>)
    ensures ids == KeptIds(Flatten(rs), exclude)
  {
    ghost var total := KeptIds(Flatten(rs), exclude);
    ids := [];
    var i := 0;
    while i < |rs|
      invariant 0 <= i <= |rs|
      invariant ids + KeptIds(Flatten(rs[i..]), exclude) == total
    {
      var insts := rs[i].instances;
      ghost var later := KeptIds(Flatten(rs[i + 1..]), exclude);
      assert ids + KeptIds(insts[0..], exclude) + later == total by {
        FlattenStep(rs, i);
        KeptIdsAppend(insts, Flatten(rs[i + 1..]), exclude);
        assert insts[0..] == insts;
        Assoc(ids, KeptIds(insts, exclude), later);
      }
      var j := 0;
      while j < |insts|
        invariant 0 <= j <= |insts|
        invariant ids + KeptIds(insts[j..], exclude) + later == total
      {
        var inst := insts[j];
        ghost var rest := KeptIds(insts[j + 1..], exclude);
        KeptIdsStep(insts, j, exclude);
        j := j + 1;
        if HasEC2Tag(inst.tags, VersionKey, exclude) {
          continue;
        }
        Assoc(ids, [inst.id], rest);
        ids := ids + [inst.id];
      }
      assert ids + KeptIds(Flatten(rs[i + 1..]), exclude) == total by {
        assert insts[j..] == [];
        assert ids + [] == ids;
      }
      i := i + 1;
    }
    assert ids == total by {
      assert rs[i..] == [];
      assert ids + [] == ids;
    }
  }

  /** How the `ec2` command ends. */
  datatype Ec2Outcome =
    | Fatal(error: ApiError)             // the process exits with this error
    | NothingToTerminate
    | DryRun(wouldTerminate: nat)
    | Terminated(ids: seq<string>)

  /**
    The `ec2` command: one describe call filtered on app and env (evaluated
    by the control plane), then the kept ids; no terminate call when there
    is none, none in dry-run mode, otherwise exactly one for all of them.
   */
  method TeardownEC2(opts: Options, described: Result<seq<Reservation>, ApiError>, terminateReply: Reply)
    returns (calls: seq<Call>, outcome: Ec2Outcome)
    requires opts.Valid()
    ensures |calls| >= 1 && calls[0] == DescribeInstances(opts.app, opts.env)
    ensures described.Failure? || opts.dry ==> forall c :: c in calls ==> !c.IsMutation()
    ensures described.Failure? ==> calls == [calls[0]] && outcome == Fatal(described.error)
    ensures described.Success? ==>
      var ids := KeptIds(Flatten(described.value), opts.exclude);
      && (ids == [] ==> calls == [calls[0]] && outcome == NothingToTerminate)
      && (ids != [] && opts.dry ==> calls == [calls[0]] && outcome == DryRun(|ids|))
      && (ids != [] && !opts.dry ==>
            && calls == [calls[0], TerminateInstances(ids)]
            && outcome == (if terminateReply.Rejected? then Fatal(terminateReply.error) else Terminated(ids)))
  {
    // 1. find the instances that carry the app and env tags
    calls := [DescribeInstances(opts.app, opts.env)];
    if described.Failure? {
      return calls, Fatal(described.error);
    }

    // 2. the ids, without the excluded version
    var ids := CollectInstanceIds(described.value, opts.exclude);

    // 3. terminate them
    if |ids| == 0 {
      return calls, NothingToTerminate;
    }
    if opts.dry {
      return calls, DryRun(|ids|);
    }
    calls := calls + [TerminateInstances(ids)];
    if terminateReply.Rejected? {
      return calls, Fatal(terminateReply.error);
    }
    return calls, Terminated(ids);
  }

  /**
    The describe call's filter, evaluated by the control plane: every
    returned instance carries the app and env tags.
   */
  predicate ServerFiltered(rs: seq<Reservation>, opts: Options) {
    forall inst :: inst in Flatten(rs) ==>
      HasEC2Tag(inst.tags, AppKey, opts.app) && HasEC2Tag(inst.tags, EnvKey, opts.env)
  }

  /**
    With the control plane's filter applied, every id sent for termination
    belongs to an instance that carries app and env and does not carry the
    excluded version.
   */
  lemma TerminatedAreCandidates(rs: seq<Reservation>, opts: Options, id: string)
    requires ServerFiltered(rs, opts)
    requires id in KeptIds(Flatten(rs), opts.exclude)
    ensures exists inst :: (
      && inst in Flatten(rs) && inst.id == id
      && HasEC2Tag(inst.tags, AppKey, opts.app)
      && HasEC2Tag(inst.tags, EnvKey, opts.env)
      && !HasEC2Tag(inst.tags, VersionKey, opts.exclude))
  {
    var insts := Flatten(rs);
    KeptIdsMembership(insts, opts.exclude, id);
    var i :| 0 <= i < |insts| && insts[i].id == id && !IsExcluded(insts[i], opts.exclude);
    assert insts[i] in insts;
  }
}
