/**
 * `DebouncedHandler` from scripts/auto_push.py as a class over a logical
 * clock. Each method is one critical section of the original: the lock
 * only makes these steps atomic, so every method here runs as one step.
 * The repository is abstract: each command is appended to `issued`, and
 * what git answers is passed in as a parameter.
 */
module AutoPush {

  import opened Wrappers
  import opened EventFilter
  import opened Status
  import opened CommitAttempt
  import opened Debounce

  /** The timers an optional slot holds. */
  function TimerSet(t: Option<Timer>): set<Timer>
  {
    if t.Some? then {t.value} else {}
  }

  class DebouncedHandler {
    /** The debounce delay, in ticks of the logical clock. */
    const delay: nat
    /** `self._timer` while it has neither fired nor been cancelled. */
    var timer: Option<Timer>
    /** How many timers this handler has started; the next one's identity. */
    var started: nat
    /** The commands run in the repository so far, oldest first. */
    var issued: seq<Command>
    /** The timers whose threads are still waiting: started, not cancelled, not fired. */
    ghost var live: set<Timer>

    /** The debounce state as the pure state machine sees it. */
    function State(): Slot
      reads this
    {
      Slot(timer, started)
    }

    /** The only waiting timer is the one in the slot: at most one is ever live. */
    ghost predicate Valid()
      reads this
      ensures Valid() ==> |live| <= 1
    {
      SlotValid(State()) && live == TimerSet(timer)
    }

    /** `__init__`: no timer yet, nothing run. */
    constructor (delay: nat)
      ensures Valid()
      ensures this.delay == delay && State() == IDLE && live == {} && issued == []
    {
      this.delay := delay;
      timer := None;
      started := 0;
      issued := [];
      live := {};
    }

    /** `_schedule`: cancel the pending timer, if any, then start a new one due `delay` after `now`. */
    method Schedule(now: nat)
      requires Valid()
      modifies this
      ensures Valid()
      ensures State() == Debounce.Schedule(old(State()), now, delay)
      ensures live == {Timer(old(started), now + delay)}
      ensures issued == old(issued)
    {
      if timer.Some? {
        live := live - {timer.value};
      }
      var t := Timer(started, now + delay);
      timer := Some(t);
      started := started + 1;
      live := live + {t};
    }

    /** `on_any_event`: directory events and events under `.git` change nothing; any other schedules. */
    method OnAnyEvent(ev: ChangeEvent, now: nat)
      requires Valid()
      modifies this
      ensures Valid()
      ensures State() == OnEvent(old(State()), ev, now, delay)
      ensures !Qualifies(ev) ==> unchanged(this)
      ensures Qualifies(ev) ==> live == {Timer(old(started), now + delay)}
      ensures issued == old(issued)
    {
      if ev.isDirectory {
        return;
      }
      if Contains(ReplaceChar(ev.srcPath, '\\', '/'), GIT_MARKER) {
        return;
      }
      Schedule(now);
    }

    /** `_run`: issue one command; its exit code and output are whatever git replies. */
    method RunCommand(c: Command, reply: Completed) returns (result: Completed)
      modifies this`issued
      ensures issued == old(issued) + [c]
      ensures result == reply
    {
      issued := issued + [c];
      result := reply;
    }

    /** `_has_changes`: query the porcelain status and test whether anything but whitespace came back. */
    method HasChanges(reply: Completed) returns (changed: bool)
      modifies this`issued
      ensures issued == old(issued) + [StatusPorcelain]
      ensures changed == NonBlank(reply.stdout)
    {
      var r := RunCommand(StatusPorcelain, reply);
      changed := |Strip(r.stdout)| > 0;
    }

    /**
     * `_commit_and_push`: stage, check, and only if the check reports
     * changes, commit with the timestamped message and push. Only the
     * status output decides what is issued; no exit code is looked at.
     */
    method CommitAndPush(replies: Replies, timestamp: string)
      modifies this`issued
      ensures issued == old(issued) + AttemptTrace(replies.status.stdout, timestamp)
    {
      var _ := RunCommand(StageAll, replies.add);
      var changed := HasChanges(replies.status);
      if !changed {
        return;
      }
      var msg := CommitMessage(timestamp);
      var _ := RunCommand(CommitWithMessage(msg), replies.commit);
      var _ := RunCommand(Push, replies.push);
    }

    /**
     * The clock reaches `now`. If the pending timer is due it fires: it
     * leaves the slot and its thread runs one commit attempt, with the
     * replies git gives and the timestamp taken at that moment.
     */
    method Tick(now: nat, replies: Replies, timestamp: string) returns (fired: Option<Timer>)
      requires Valid()
      modifies this
      ensures Valid()
      ensures fired == FiredBy(old(State()), Input.Tick(now))
      ensures State() == OnTick(old(State()), now)
      ensures issued == old(issued) + (if fired.Some? then AttemptTrace(replies.status.stdout, timestamp) else [])
    {
      fired := None;
      if timer.Some? && timer.value.deadline <= now {
        fired := timer;
        live := live - {timer.value};
        timer := None;
        CommitAndPush(replies, timestamp);
      }
    }
  }

  /**
   * A change inside `.git` is ignored; a change to a file schedules a
   * timer that a tick before its deadline leaves alone; when it fires and
   * the status holds only whitespace, only `add -A` and
   * `status --porcelain` are run.
   */
  method BlankStatusScenario(root: string, file: ChangeEvent, replies: Replies, ts: string)
    requires Qualifies(file)
    requires forall k :: 0 <= k < |replies.status.stdout| ==> IsSpace(replies.status.stdout[k])
  {
    GitDirectoryIgnored(root, '\\', '/', "index", false);
    NonBlankIff(replies.status.stdout);
    var h := new DebouncedHandler(10);
    h.OnAnyEvent(ChangeEvent(root + ['\\'] + ".git" + ['/'] + "index", false), 0);
    assert h.timer.None?;
    h.OnAnyEvent(file, 0);
    assert h.timer == Some(Timer(0, 10));
    var early := h.Tick(9, replies, ts);
    assert early.None? && h.issued == [];
    var fired := h.Tick(10, replies, ts);
    assert fired == Some(Timer(0, 10));
    assert h.issued == [StageAll, StatusPorcelain];
  }

  /**
   * Two changes further apart than the delay give two commit attempts,
   * each with its own timestamp, whatever exit codes git returns.
   */
  method TwoAttemptsScenario(file: ChangeEvent, replies: Replies, ts1: string, ts2: string)
    requires Qualifies(file) && NonBlank(replies.status.stdout) && ts1 != ts2
  {
    var commit1, commit2 := CommitWithMessage(CommitMessage(ts1)), CommitWithMessage(CommitMessage(ts2));
    CommitMessageInjective(ts1, ts2);

    var h := new DebouncedHandler(10);
    h.OnAnyEvent(file, 0);
    var first := h.Tick(10, replies, ts1);
    assert first == Some(Timer(0, 10));
    assert h.issued == [StageAll, StatusPorcelain, commit1, Push];
    h.OnAnyEvent(file, 20);
    var second := h.Tick(30, replies, ts2);
    assert second == Some(Timer(1, 30));
    assert h.issued == [StageAll, StatusPorcelain, commit1, Push, StageAll, StatusPorcelain, commit2, Push];
    assert commit1 != commit2;
  }
}
