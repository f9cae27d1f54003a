# Debounced auto-commit handler, modelled in Dafny

`scripts/auto_push.py` watches a git working tree. Its `DebouncedHandler`
drops filesystem events for directories and for paths inside `.git`. Every
other event cancels the one pending `threading.Timer` and starts a new one,
so a burst of changes ends in a single commit attempt `delay` seconds after
the last change. An attempt runs `git add -A` and `git status --porcelain`.
When the status output is blank after `bytes.strip()`, it stops there.
Otherwise it runs `git commit -m "Auto update: <timestamp>"` and `git push`.

The model has one module per part of the handler:

- `EventFilter` (event_filter.dfy): the path test of `on_any_event`. This
  covers `str.replace('\\', '/')` and the substring test `'/.git/' in path`.
  Lemmas characterise both, and give the substring test a separator-level
  meaning: `.git` between two separators, each `/` or `\`.
- `Status` (status.dfy): `bytes.strip()` on the status output and
  `_has_changes`. The output of `subprocess.run` without `text=True` is a
  byte string, so stripping removes the ASCII whitespace bytes 9 to 13 and 32.
- `CommitAttempt` (commit_attempt.dfy): the four git commands, their
  argument vectors, the commit message, and `AttemptTrace`. `AttemptTrace`
  is the command sequence one attempt issues, given the status output.
- `Debounce` (debounce.dfy): the single-slot timer as a pure state machine
  on a logical clock (`Slot`, `OnEvent`, `OnTick`). It also has `Run` and
  `Fired` over whole input sequences, with lemmas about bursts,
  cancellation and firing order.
- `AutoPush` (handler.dfy): the class `DebouncedHandler`. Its fields are
  `timer`, `started` and `issued`, plus a ghost `live` set. Its methods are
  the handler's methods: `Schedule`, `OnAnyEvent`, `RunCommand`,
  `HasChanges`, `CommitAndPush`, and `Tick` for the timer firing. Every
  method states its new state through the pure functions above. Two client
  methods replay the handler's usage scenarios.

Design decisions:

- Time is a natural-number tick. `Tick(now)` is the moment the clock reaches
  `now`. The pending timer fires when `now` is at or after its deadline.
- A `Timer` carries an identity. It is the number of timers started before
  it, standing for the identity of the `threading.Timer` object. This is
  what lets "a cancelled timer never fires" be stated at all.
- After a timer fires, the Python code keeps its reference in
  `self._timer`. The next `_schedule` calls `cancel()` on it, which does
  nothing because the timer is already finished. The model empties the
  slot when the timer fires, which behaves the same way.
- The lock only makes `_schedule` and `_commit_and_push` atomic. Each of
  them is one method here, and threads are not modelled.
- git is abstract. Each command the handler runs is appended to `issued`.
  The handler is passed `Replies` (exit code and standard output for each
  of the four commands). Only the status output is ever read.
- The repository metadata filter lives in `on_any_event` in the code, not
  in a separate watcher component. The model follows the code.

## Model

| member | source | states |
|---|---|---|
| EventFilter.ReplaceCharAt | scripts/auto_push.py:47 | `replace('\\', '/')` keeps the length and rewrites exactly the backslashes, leaving every other character in place |
| EventFilter.NormalizeIdempotent | scripts/auto_push.py:47 | after normalising, no backslash is left, and normalising again changes nothing |
| EventFilter.ContainsIff | scripts/auto_push.py:47 | the left-to-right substring scan modelling Python's `in` succeeds exactly when the substring occurs at some index (both directions) |
| EventFilter.GitInternalIff | scripts/auto_push.py:46-48 | a path is dropped as metadata exactly when `.git` stands between two separators, each `/` or `\` |
| EventFilter.GitDirectoryIgnored | scripts/auto_push.py:46-48 | every path of the form root, separator, `.git`, separator, rest is dropped, for any root and rest and either separator |
| EventFilter.GitInternalExtends | scripts/auto_push.py:47-48 | a path that is dropped stays dropped when text is added before or after it |
| EventFilter.DirectoryEventIgnored | scripts/auto_push.py:44-45 | a directory event never qualifies, whatever its path |
| EventFilter.NoSeparatorQualifies | scripts/auto_push.py:43-49 | a file event whose path has no separator always qualifies |
| EventFilter.WindowsGitPathIgnored | scripts/auto_push.py:47-48 | `C:\repo\.git\index` is dropped |
| EventFilter.NameEndingInDotGitQualifies | scripts/auto_push.py:47-49 | `repo/x.git/y` qualifies, because no separator comes before `.git` |
| Status.StripStartSpec | scripts/auto_push.py:56 | the leading strip removes a maximal run of whitespace bytes from the front; what is left is a suffix of the input that is empty or starts with a non-whitespace byte |
| Status.StripEndSpec | scripts/auto_push.py:56 | the trailing strip removes a maximal run of whitespace bytes from the back; what is left is a prefix of the input that is empty or ends with a non-whitespace byte |
| Status.NonBlankIff | scripts/auto_push.py:54-56 | `bool(stdout.strip())` is true exactly when the output holds a byte that is not ASCII whitespace, so whitespace-only output means no changes |
| Status.StripIdempotent | scripts/auto_push.py:56 | stripping an output that was already stripped changes nothing |
| Status.ModifiedFileIsChange | scripts/auto_push.py:54-56 | the porcelain line ` M a` followed by a newline counts as a change |
| Status.WhitespaceOnlyIsNoChange | scripts/auto_push.py:54-56 | empty output, and output made only of newlines, tabs, spaces and carriage returns, count as no change |
| CommitAttempt.ArgvRoundTrip | scripts/auto_push.py:55-68 | each command has its own argument vector (`git add -A`, `git status --porcelain`, `git commit -m msg`, `git push`), and the vector reads back as that command |
| CommitAttempt.MessageRoundTrip | scripts/auto_push.py:64-65 | the message is `Auto update: ` followed by the timestamp, and the timestamp can be read back from it |
| CommitAttempt.CommitMessageInjective | scripts/auto_push.py:64-66 | attempts with distinct timestamps commit with distinct messages |
| CommitAttempt.CommitsIffStatusNonBlank | scripts/auto_push.py:61-68 | an attempt commits exactly when the status output has a non-whitespace byte, and pushes exactly when it commits |
| CommitAttempt.AttemptShape | scripts/auto_push.py:58-68 | every attempt starts with `add -A` then `status --porcelain`; a commit can only be the third command, carries the attempt's timestamp, and is followed only by `push` |
| Debounce.ScheduleReplaces | scripts/auto_push.py:36-41 | after scheduling at `now`, exactly one timer is pending, due at `now + delay`, and it differs from whatever timer was pending before |
| Debounce.IgnoredEventKeepsSlot | scripts/auto_push.py:43-48 | a directory event or an event under `.git` leaves the slot unchanged: nothing is scheduled and no deadline is reset |
| Debounce.TickFiresWhenDue | scripts/auto_push.py:40-41 | a tick fires exactly when a timer is pending and its deadline has come; firing empties the slot, and otherwise nothing changes |
| Debounce.StepValid | scripts/auto_push.py:36-49 | each event or tick keeps the pending timer the most recently started one, and never decreases the number of timers started |
| Debounce.RunValid | scripts/auto_push.py:33-41 | over any input sequence the slot stays valid and timers are only added; if no timer was started, the original timer is still pending or has fired |
| Debounce.FiredInOrder | scripts/auto_push.py:36-41 | fired timers were started before any timer still pending; they fire in the order they were started, and each fires at most once |
| Debounce.FiredFromCurrentOrLater | scripts/auto_push.py:38-41 | only the timer pending at the start, or a timer started later, can ever fire |
| Debounce.CancelledNeverFires | scripts/auto_push.py:38-40 | the timer cancelled by a qualifying event never fires afterwards, whatever inputs follow |
| Debounce.RunTracksLastChange | scripts/auto_push.py:36-49 | starting with no timer, while no tick reaches the deadline, nothing fires, a timer is pending exactly when a qualifying event has occurred, and its deadline is the last such event's tick plus `delay` |
| Debounce.QuietPeriodFiresOnce | scripts/auto_push.py:36-41 | after such a run, the first tick at or past the last event plus `delay` fires exactly one timer, due at that moment, and empties the slot |
| Debounce.TickBeforeNextChangeIsEarly | scripts/auto_push.py:36-41 | on a monotone clock where qualifying events are less than `delay` apart, a tick followed by a later qualifying event comes before the current deadline |
| Debounce.BurstFiresOnce | scripts/auto_push.py:36-49 | a burst of qualifying events, each less than `delay` after the previous one, fires nothing while it lasts; the first tick `delay` after its last event fires exactly one timer, due then |
| Debounce.ResetScenario | scripts/auto_push.py:36-41 | with a delay of 10: a change at 0 is due at 10; a second change at 5 moves the deadline to 15; ticks at 10 and 15 fire only the second timer |
| Debounce.TwoBurstsScenario | scripts/auto_push.py:36-41 | with a delay of 10, changes at 0 and 20 with ticks at 10 and 30 fire two distinct timers, due at 10 and 30 |
| AutoPush.DebouncedHandler.Valid | scripts/auto_push.py:33-41 | in a valid handler at most one timer thread is live, and it is the one in the slot |
| AutoPush.DebouncedHandler.constructor | scripts/auto_push.py:29-34 | a new handler has no timer, has started none, has no live timer and has run no command |
| AutoPush.DebouncedHandler.Schedule | scripts/auto_push.py:36-41 | cancels the pending timer and starts one due at `now + delay`, which is then the only live timer; no command is run |
| AutoPush.DebouncedHandler.OnAnyEvent | scripts/auto_push.py:43-49 | a non-qualifying event changes nothing; a qualifying one performs exactly one scheduling step |
| AutoPush.DebouncedHandler.RunCommand | scripts/auto_push.py:51-52 | appends the command to the repository's command log and returns git's reply unchanged |
| AutoPush.DebouncedHandler.HasChanges | scripts/auto_push.py:54-56 | runs `status --porcelain` and returns whether its output is non-blank after stripping |
| AutoPush.DebouncedHandler.CommitAndPush | scripts/auto_push.py:58-68 | appends exactly the commands of `AttemptTrace` for the status output and timestamp; no exit code affects them |
| AutoPush.DebouncedHandler.Tick | scripts/auto_push.py:36-68 | fires the pending timer exactly when it is due, empties the slot, and then runs one commit attempt; otherwise it changes nothing |

## Left out

- `subprocess.run` and the git process (scripts/auto_push.py:51-52). git's
  replies to the four commands are a parameter, and `stderr` is not modelled
  because nothing reads it.
- `threading.Timer` threads and the `Lock` (scripts/auto_push.py:22, 34, 37,
  59). Each locked section is one atomic method, so the model cannot show
  one window of `threading.Timer`. A timer whose wait has ended may already
  be blocked on the lock inside `_commit_and_push`. A `cancel()` issued by
  `_schedule` at that moment does not stop it, so that attempt still runs.
  In the model, firing and cancelling are never interleaved this way.
- `time.strftime` (scripts/auto_push.py:64). The timestamp is an opaque
  string parameter, so its `YYYY-MM-DD HH:MM:SS` local-time format is not
  modelled.
- The `float` delay (scripts/auto_push.py:32, 74). The delay is a natural
  number of ticks, so negative and fractional delays are not modelled.
- `main` (scripts/auto_push.py:71-96): argument parsing, the `.git`
  existence check, the watchdog `Observer` start/stop loop and printing.
  This is process glue and I/O.
- watchdog event kinds (created, modified, moved, deleted) are not told
  apart, as in the code. Only `src_path` and `is_directory` are modelled,
  so the `dest_path` of a move is not.
