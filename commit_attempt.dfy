/**
 * The commands one commit attempt (`DebouncedHandler._commit_and_push`)
 * issues to git, in order: stage everything, ask for the porcelain
 * status, and only when that output is not blank commit with a
 * timestamped message and push.
 */
module CommitAttempt {

  import opened Wrappers
  import opened Status

  /** The four git invocations of an attempt. */
  datatype Command = StageAll | StatusPorcelain | CommitWithMessage(message: string) | Push

  /** What git reports back for one invocation: its exit code and standard output. */
  datatype Completed = Completed(returnCode: int, stdout: seq<byte>)

  /** The replies the repository gives to the four commands of one attempt. */
  datatype Replies = Replies(add: Completed, status: Completed, commit: Completed, push: Completed)

  const MESSAGE_PREFIX: string := "Auto update: "

  /** The argument vector `_run` hands to the process for each command. */
  function Argv(c: Command): seq<string>
  {
    match c
    case StageAll => ["git", "add", "-A"]
    case StatusPorcelain => ["git", "status", "--porcelain"]
    case CommitWithMessage(m) => ["git", "commit", "-m", m]
    case Push => ["git", "push"]
  }

  /** Reads an argument vector back as one of the four commands. */
  function ParseArgv(argv: seq<string>): Option<Command>
  {
    if argv == ["git", "add", "-A"] then Some(StageAll)
    else if argv == ["git", "status", "--porcelain"] then Some(StatusPorcelain)
    else if |argv| == 4 && argv[..3] == ["git", "commit", "-m"] then Some(CommitWithMessage(argv[3]))
    else if argv == ["git", "push"] then Some(Push)
    else None
  }

  /** `f'Auto update: {timestamp}'`. */
  function CommitMessage(timestamp: string): string
  {
    MESSAGE_PREFIX + timestamp
  }

  /** The timestamp a commit message carries, if it has the attempt's form. */
  function MessageTimestamp(message: string): Option<string>
  {
    if |message| >= |MESSAGE_PREFIX| && message[..|MESSAGE_PREFIX|] == MESSAGE_PREFIX
    then Some(message[|MESSAGE_PREFIX|..])
    else None
  }

  /** The commands an attempt issues, given what `git status --porcelain` prints. */
  function AttemptTrace(statusOut: seq<byte>, timestamp: string): seq<Command>
  {
    if NonBlank(statusOut)
    then [StageAll, StatusPorcelain, CommitWithMessage(CommitMessage(timestamp)), Push]
    else [StageAll, StatusPorcelain]
  }

  /** Some command of the trace is a commit. */
  predicate Commits(trace: seq<Command>)
  {
    exists i :: 0 <= i < |trace| && trace[i].CommitWithMessage?
  }

  /** Every command is invoked with a distinct argument vector, which reads back as that command. */
  lemma ArgvRoundTrip(c: Command)
    ensures ParseArgv(Argv(c)) == Some(c)
  {
    match c
    case StageAll =>
    case StatusPorcelain =>
    case CommitWithMessage(m) =>
      assert Argv(c)[..3] == ["git", "commit", "-m"];
    case Push =>
  }

  /** The timestamp can be read back from the message. */
  lemma MessageRoundTrip(timestamp: string)
    ensures MessageTimestamp(CommitMessage(timestamp)) == Some(timestamp)
  {
    assert CommitMessage(timestamp)[..|MESSAGE_PREFIX|] == MESSAGE_PREFIX;
    assert CommitMessage(timestamp)[|MESSAGE_PREFIX|..] == timestamp;
  }

  /** Two attempts with distinct timestamps commit with distinct messages. */
  lemma CommitMessageInjective(a: string, b: string)
    requires a != b
    ensures CommitMessage(a) != CommitMessage(b)
  {
    MessageRoundTrip(a);
    MessageRoundTrip(b);
  }

  /**
   * An attempt commits and pushes exactly when the status output holds a
   * byte that is not whitespace.
   */
  lemma CommitsIffStatusNonBlank(statusOut: seq<byte>, timestamp: string)
    ensures Commits(AttemptTrace(statusOut, timestamp)) <==> exists k :: 0 <= k < |statusOut| && !IsSpace(statusOut[k])
    ensures Push in AttemptTrace(statusOut, timestamp) <==> Commits(AttemptTrace(statusOut, timestamp))
  {
    var trace := AttemptTrace(statusOut, timestamp);
    NonBlankIff(statusOut);
    if NonBlank(statusOut) {
      assert trace[2].CommitWithMessage?;
    } else {
      assert Push !in trace;
    }
  }

  /**
   * The shape of every attempt: staging and the status query always come
   * first; a commit, if any, is the third command, carries the attempt's
   * timestamp and is immediately followed by the last command, the push.
   */
  lemma AttemptShape(statusOut: seq<byte>, timestamp: string)
    ensures AttemptTrace(statusOut, timestamp)[..2] == [StageAll, StatusPorcelain]
    ensures forall i :: 0 <= i < |AttemptTrace(statusOut, timestamp)| && AttemptTrace(statusOut, timestamp)[i].CommitWithMessage? ==>
      i == 2 && MessageTimestamp(AttemptTrace(statusOut, timestamp)[i].message) == Some(timestamp)
      && AttemptTrace(statusOut, timestamp)[i + 1..] == [Push]
  {
    MessageRoundTrip(timestamp);
  }
}
