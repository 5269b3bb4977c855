/**
  Vocabulary shared by the two teardown commands: resource tags, the
  command-line options, the replies of the cloud control plane and the record
  of the calls the tool issues to it.

  The control plane itself is not modelled: every reply it would give is a
  parameter (a scripted response), and every request the tool makes is
  appended to a trace of `Call` values, so that properties of the tool are
  properties of that trace.
 */
module Fleet {

  datatype Option<+T> = None | Some(value: T)

  datatype Result<+T, +E> = Success(value: T) | Failure(error: E)

  /** An error reported by the control plane; its text is opaque to the tool. */
  datatype ApiError = ApiError(message: string)

  /** The reply to a mutating call whose output the tool does not use. */
  datatype Reply = Accepted | Rejected(error: ApiError)

  /** One key/value tag of an instance or an autoscaling group. */
  datatype Tag = Tag(key: string, value: string)

  /**
    The options shared by the `ec2` and `asg` commands. The region only
    selects the control-plane endpoint and is never validated.
   */
  datatype Options = Options(region: string, app: string, env: string, exclude: string, dry: bool)
  {
    /** The options are only built when app, env and exclude are all given. */
    predicate Valid() {
      app != "" && env != "" && exclude != ""
    }
  }

  /** Tag keys the tool matches on. */
  const AppKey: string := "app"
  const EnvKey: string := "env"
  const VersionKey: string := "version"

  /** Seconds the drain loop waits between two polls of a group. */
  const PollInterval: nat := 15

  /** A request the tool sends to the control plane, or a pause between two of them. */
  datatype Call =
    | DescribeGroups
    | UpdateGroup(group: string, desired: int, min: int, max: int)
    | DescribeGroup(group: string)
    | Sleep(seconds: nat)
    | DeleteGroup(group: string, force: bool)
    | DeleteLaunchConfiguration(name: string)
    | DescribeInstances(appFilter: string, envFilter: string)
    | TerminateInstances(ids: seq<string>)
  {
    /** Calls that change the fleet. */
    predicate IsMutation() {
      UpdateGroup? || DeleteGroup? || DeleteLaunchConfiguration? || TerminateInstances?
    }
  }

  /**
    Linear search over a tag list: true as soon as one tag has both the key
    and the value asked for.
   */
  function HasTag(tags: seq<Tag>, key: string, value: string): (r: bool)
    ensures r <==> Tag(key, value) in tags
  {
    if tags == [] then false
    else if tags[0].key == key && tags[0].value == value then true
    else HasTag(tags[1..], key, value)
  }

  lemma Assoc<T>(a: seq<T>, b: seq<T>, c: seq<T>)
    ensures a + (b + c) == (a + b) + c
  {
  }

  lemma SplitAt<T>(s: seq<T>, k: nat)
    requires k < |s|
    ensures s == s[..k] + [s[k]] + s[k + 1..]
  {
  }

  /** `xs` is obtained from `ys` by dropping elements, keeping the rest in order. */
  ghost predicate IsSubsequence<T>(xs: seq<T>, ys: seq<T>)
    decreases |ys|
  {
    if ys == [] then xs == []
    else
      || IsSubsequence(xs, ys[1..])
      || (xs != [] && xs[0] == ys[0] && IsSubsequence(xs[1..], ys[1..]))
  }
}
