/**
 * The single-slot debounce of `DebouncedHandler`, as a state machine on a
 * logical clock. The slot holds at most one pending timer; every
 * qualifying event cancels it and starts a fresh one due `delay` ticks
 * later, and a tick at or after the deadline fires the pending timer.
 *
 * A `Timer` stands for one `threading.Timer` object: `id` is its identity
 * (the number of timers started before it) and `deadline` the tick at
 * which it is due.
 */
module Debounce {

  import opened Wrappers
  import opened EventFilter

  datatype Timer = Timer(id: nat, deadline: nat)

  /** The pending timer, if any, and how many timers have been started so far. */
  datatype Slot = Slot(timer: Option<Timer>, started: nat)

  /** The state of a handler that has just been created. */
  const IDLE: Slot := Slot(None, 0)

  /** A pending timer is always the most recently started one. */
  predicate SlotValid(s: Slot)
  {
    s.timer.Some? ==> s.timer.value.id + 1 == s.started
  }

  /** `_schedule` at tick `now`: cancel whatever is pending and start a new timer. */
  function Schedule(s: Slot, now: nat, delay: nat): Slot
  {
    Slot(Some(Timer(s.started, now + delay)), s.started + 1)
  }

  /** `on_any_event`: only qualifying events reach `_schedule`. */
  function OnEvent(s: Slot, ev: ChangeEvent, now: nat, delay: nat): Slot
  {
    if Qualifies(ev) then Schedule(s, now, delay) else s
  }

  /** The pending timer has reached its deadline. */
  predicate Due(s: Slot, now: nat)
  {
    s.timer.Some? && s.timer.value.deadline <= now
  }

  /** The clock reaches `now`: a due timer fires and leaves the slot. */
  function OnTick(s: Slot, now: nat): Slot
  {
    if Due(s, now) then s.(timer := None) else s
  }

  /** What can happen to the handler: a filesystem event, or the clock advancing. */
  datatype Input = Change(ev: ChangeEvent, at: nat) | Tick(at: nat)

  function Step(s: Slot, input: Input, delay: nat): Slot
  {
    match input
    case Change(ev, t) => OnEvent(s, ev, t, delay)
    case Tick(t) => OnTick(s, t)
  }

  /** The timer that fires on this input, if one does. */
  function FiredBy(s: Slot, input: Input): Option<Timer>
  {
    if input.Tick? && Due(s, input.at) then s.timer else None
  }

  function OptionToSeq(o: Option<Timer>): seq<Timer>
  {
    if o.Some? then [o.value] else []
  }

  /** The slot after all of `inputs`, in order. */
  function Run(s: Slot, inputs: seq<Input>, delay: nat): Slot
    decreases |inputs|
  {
    if inputs == [] then s
    else Step(Run(s, inputs[..|inputs| - 1], delay), inputs[|inputs| - 1], delay)
  }

  /** The timers that fire while `inputs` are processed, in order: one commit attempt each. */
  function Fired(s: Slot, inputs: seq<Input>, delay: nat): seq<Timer>
    decreases |inputs|
  {
    if inputs == [] then []
    else
      var init := inputs[..|inputs| - 1];
      Fired(s, init, delay) + OptionToSeq(FiredBy(Run(s, init, delay), inputs[|inputs| - 1]))
  }

  /** The tick of the last qualifying event among `inputs`. */
  function LastChange(inputs: seq<Input>): Option<nat>
    decreases |inputs|
  {
    if inputs == [] then None
    else
      var last := inputs[|inputs| - 1];
      if last.Change? && Qualifies(last.ev) then Some(last.at) else LastChange(inputs[..|inputs| - 1])
  }

  /** A tick at `t` comes less than `delay` after the last qualifying event before it (or there is none). */
  predicate TickEarly(prefix: seq<Input>, t: nat, delay: nat)
  {
    LastChange(prefix).None? || t < LastChange(prefix).value + delay
  }

  /** Every tick of `inputs` falls inside the quiet window of the last qualifying event before it. */
  ghost predicate NoTickDue(inputs: seq<Input>, delay: nat)
  {
    forall j :: 0 <= j < |inputs| && inputs[j].Tick? ==> TickEarly(inputs[..j], inputs[j].at, delay)
  }

  /**
   * Scheduling leaves exactly one pending timer, due `delay` after `now`,
   * whatever was pending before, and it is a different timer from any
   * that was pending.
   */
  lemma ScheduleReplaces(s: Slot, now: nat, delay: nat)
    requires SlotValid(s)
    ensures SlotValid(Schedule(s, now, delay))
    ensures Schedule(s, now, delay).timer.Some? && Schedule(s, now, delay).timer.value.deadline == now + delay
    ensures s.timer.Some? ==> Schedule(s, now, delay).timer.value != s.timer.value
  {
  }

  /** Directory events and events under `.git` leave the slot as it was. */
  lemma IgnoredEventKeepsSlot(s: Slot, ev: ChangeEvent, now: nat, delay: nat)
    requires ev.isDirectory || IsGitInternal(ev.srcPath)
    ensures OnEvent(s, ev, now, delay) == s
  {
  }

  /** A tick fires exactly when a timer is pending and its deadline has come, and empties the slot. */
  lemma TickFiresWhenDue(s: Slot, now: nat)
    ensures FiredBy(s, Tick(now)).Some? <==> s.timer.Some? && now >= s.timer.value.deadline
    ensures FiredBy(s, Tick(now)).Some? ==> FiredBy(s, Tick(now)) == s.timer && OnTick(s, now).timer.None?
    ensures FiredBy(s, Tick(now)).None? ==> OnTick(s, now) == s
  {
  }

  /** Every step keeps the pending timer the newest one. */
  lemma StepValid(s: Slot, input: Input, delay: nat)
    requires SlotValid(s)
    ensures SlotValid(Step(s, input, delay))
    ensures Step(s, input, delay).started >= s.started
  {
  }

  /** `Run` keeps the slot valid; timers are only ever added, and without a new one the old one stays or has fired. */
  lemma {:induction false} RunValid(s: Slot, inputs: seq<Input>, delay: nat)
    requires SlotValid(s)
    ensures SlotValid(Run(s, inputs, delay))
    ensures Run(s, inputs, delay).started >= s.started
    ensures Run(s, inputs, delay).started == s.started ==>
      Run(s, inputs, delay).timer == s.timer || Run(s, inputs, delay).timer.None?
  {
    if inputs != [] {
      var init := inputs[..|inputs| - 1];
      RunValid(s, init, delay);
      StepValid(Run(s, init, delay), inputs[|inputs| - 1], delay);
    }
  }

  /**
   * Every timer that fires was started before all timers still pending, and
   * they fire in the order they were started, each at most once.
   */
  lemma {:induction false} FiredInOrder(s: Slot, inputs: seq<Input>, delay: nat)
    requires SlotValid(s)
    ensures forall f :: f in Fired(s, inputs, delay) ==> f.id < Run(s, inputs, delay).started
    ensures forall f :: f in Fired(s, inputs, delay) && Run(s, inputs, delay).timer.Some? ==>
      f.id < Run(s, inputs, delay).timer.value.id
    ensures forall i, j :: 0 <= i < j < |Fired(s, inputs, delay)| ==>
      Fired(s, inputs, delay)[i].id < Fired(s, inputs, delay)[j].id
  {
    if inputs != [] {
      var init := inputs[..|inputs| - 1];
      FiredInOrder(s, init, delay);
      RunValid(s, init, delay);
      var before := Fired(s, init, delay);
      var now := OptionToSeq(FiredBy(Run(s, init, delay), inputs[|inputs| - 1]));
      assert Fired(s, inputs, delay) == before + now;
      forall f | f in now ensures forall g :: g in before ==> g.id < f.id {
      }
    }
  }

  /** Only the timer pending at the start, or one started later, can fire. */
  lemma {:induction false} FiredFromCurrentOrLater(s: Slot, inputs: seq<Input>, delay: nat)
    requires SlotValid(s)
    ensures forall f :: f in Fired(s, inputs, delay) ==> s.timer == Some(f) || f.id >= s.started
  {
    if inputs != [] {
      var init := inputs[..|inputs| - 1];
      FiredFromCurrentOrLater(s, init, delay);
      RunValid(s, init, delay);
    }
  }

  /** A timer that a qualifying event cancelled never fires afterwards. */
  lemma CancelledNeverFires(s: Slot, ev: ChangeEvent, now: nat, delay: nat, rest: seq<Input>)
    requires SlotValid(s) && s.timer.Some? && Qualifies(ev)
    ensures s.timer.value !in Fired(OnEvent(s, ev, now, delay), rest, delay)
  {
    FiredFromCurrentOrLater(OnEvent(s, ev, now, delay), rest, delay);
  }

  /** The input is an event that reaches `_schedule`. */
  predicate IsQualifyingChange(input: Input)
  {
    input.Change? && Qualifies(input.ev)
  }

  /** No qualifying event occurs at index `from` or later. */
  ghost predicate QuietFrom(inputs: seq<Input>, from: nat)
  {
    forall k :: from <= k < |inputs| ==> !IsQualifyingChange(inputs[k])
  }

  /** The clock never runs backwards along `inputs`. */
  ghost predicate Monotone(inputs: seq<Input>)
  {
    forall i, j :: 0 <= i < j < |inputs| ==> inputs[i].at <= inputs[j].at
  }

  /** Each qualifying event comes less than `delay` after the previous one. */
  ghost predicate CloseChanges(inputs: seq<Input>, delay: nat)
  {
    forall k :: 0 <= k < |inputs| && IsQualifyingChange(inputs[k]) && LastChange(inputs[..k]).Some? ==>
      inputs[k].at < LastChange(inputs[..k]).value + delay
  }

  /** When nothing qualifying happens from `from` on, the last qualifying event is that of the prefix. */
  lemma {:induction false} LastChangeOfQuietSuffix(inputs: seq<Input>, from: nat)
    requires from <= |inputs| && QuietFrom(inputs, from)
    ensures LastChange(inputs) == LastChange(inputs[..from])
    decreases |inputs| - from
  {
    if from < |inputs| {
      var init := inputs[..|inputs| - 1];
      assert init[..from] == inputs[..from];
      assert QuietFrom(init, from) by {
        forall k | from <= k < |init| ensures !IsQualifyingChange(init[k]) {
          assert init[k] == inputs[k];
        }
      }
      LastChangeOfQuietSuffix(init, from);
    } else {
      assert inputs[..from] == inputs;
    }
  }

  /** The first qualifying event at index `from` or later. */
  ghost function NextChange(inputs: seq<Input>, from: nat): (k: nat)
    requires !QuietFrom(inputs, from)
    ensures from <= k < |inputs| && IsQualifyingChange(inputs[k])
    ensures forall m :: from <= m < k ==> !IsQualifyingChange(inputs[m])
    decreases |inputs| - from
  {
    if IsQualifyingChange(inputs[from]) then from else NextChange(inputs, from + 1)
  }

  /**
   * Along a monotone run whose qualifying events are less than `delay`
   * apart, a tick that some qualifying event follows comes early.
   */
  lemma TickBeforeNextChangeIsEarly(inputs: seq<Input>, j: nat, delay: nat)
    requires Monotone(inputs) && CloseChanges(inputs, delay)
    requires j < |inputs| && inputs[j].Tick? && !QuietFrom(inputs, j + 1)
    ensures TickEarly(inputs[..j], inputs[j].at, delay)
  {
    var k := NextChange(inputs, j + 1);
    var upToK := inputs[..k];
    assert QuietFrom(upToK, j + 1) by {
      forall m | j + 1 <= m < |upToK| ensures !IsQualifyingChange(upToK[m]) {
        assert upToK[m] == inputs[m];
      }
    }
    LastChangeOfQuietSuffix(upToK, j + 1);
    assert upToK[..j + 1] == inputs[..j + 1];
    assert inputs[..j + 1][..j] == inputs[..j];
    assert LastChange(upToK) == LastChange(inputs[..j]);
  }

  /**
   * Scenario of a burst: the clock only moves forward, each qualifying event
   * comes less than `delay` after the previous one, and the burst ends with
   * a qualifying event at tick `l`. Then nothing fires during the burst, and
   * the first tick at or after `l + delay` fires exactly one timer, due at
   * `l + delay`.
   */
  lemma BurstFiresOnce(inputs: seq<Input>, t: nat, delay: nat)
    requires Monotone(inputs) && CloseChanges(inputs, delay)
    requires |inputs| > 0 && IsQualifyingChange(inputs[|inputs| - 1])
    requires t >= inputs[|inputs| - 1].at + delay
    ensures Fired(IDLE, inputs, delay) == []
    ensures |Fired(IDLE, inputs + [Tick(t)], delay)| == 1
    ensures Fired(IDLE, inputs + [Tick(t)], delay)[0].deadline == inputs[|inputs| - 1].at + delay
  {
    forall j | 0 <= j < |inputs| && inputs[j].Tick? ensures TickEarly(inputs[..j], inputs[j].at, delay) {
      assert !QuietFrom(inputs, j + 1);
      TickBeforeNextChangeIsEarly(inputs, j, delay);
    }
    RunTracksLastChange(IDLE, inputs, delay);
    QuietPeriodFiresOnce(IDLE, inputs, t, delay);
  }

  /** A prefix of a run whose ticks all come early has the same property. */
  lemma NoTickDuePrefix(inputs: seq<Input>, delay: nat)
    requires |inputs| > 0 && NoTickDue(inputs, delay)
    ensures NoTickDue(inputs[..|inputs| - 1], delay)
  {
    var init := inputs[..|inputs| - 1];
    forall j | 0 <= j < |init| && init[j].Tick? ensures TickEarly(init[..j], init[j].at, delay) {
      assert init[..j] == inputs[..j];
      assert init[j] == inputs[j];
    }
  }

  /**
   * Starting with no timer, as long as no tick reaches the deadline of the
   * last qualifying event, nothing fires, and the pending deadline is
   * always `delay` after the last qualifying event: the window resets on
   * every event.
   */
  lemma {:induction false} RunTracksLastChange(s: Slot, inputs: seq<Input>, delay: nat)
    requires s.timer.None? && NoTickDue(inputs, delay)
    ensures Fired(s, inputs, delay) == []
    ensures Run(s, inputs, delay).timer.Some? <==> LastChange(inputs).Some?
    ensures LastChange(inputs).Some? ==> Run(s, inputs, delay).timer.value.deadline == LastChange(inputs).value + delay
  {
    if inputs != [] {
      var init := inputs[..|inputs| - 1];
      var last := inputs[|inputs| - 1];
      NoTickDuePrefix(inputs, delay);
      RunTracksLastChange(s, init, delay);
      if last.Tick? {
        assert TickEarly(inputs[..|inputs| - 1], last.at, delay);
      }
    }
  }

  /**
   * After a burst in which no tick came due, the first tick at or after
   * `delay` past the last qualifying event fires exactly one timer, due at
   * that moment, and leaves the slot empty.
   */
  lemma QuietPeriodFiresOnce(s: Slot, inputs: seq<Input>, t: nat, delay: nat)
    requires s.timer.None? && NoTickDue(inputs, delay)
    requires LastChange(inputs).Some? && t >= LastChange(inputs).value + delay
    ensures |Fired(s, inputs + [Tick(t)], delay)| == 1
    ensures Fired(s, inputs + [Tick(t)], delay)[0].deadline == LastChange(inputs).value + delay
    ensures Run(s, inputs + [Tick(t)], delay).timer.None?
  {
    var all := inputs + [Tick(t)];
    assert all[..|all| - 1] == inputs;
    RunTracksLastChange(s, inputs, delay);
  }

  /**
   * With a delay of 10 ticks, a change at tick 0 is due at tick 10; a
   * second change at tick 5 moves the deadline to tick 15, so a tick at 10
   * fires nothing and the tick at 15 fires the second timer only.
   */
  lemma ResetScenario()
    ensures Run(IDLE, [Change(ChangeEvent("a.txt", false), 0)], 10).timer == Some(Timer(0, 10))
    ensures Run(IDLE, [Change(ChangeEvent("a.txt", false), 0), Change(ChangeEvent("a.txt", false), 5)], 10).timer
      == Some(Timer(1, 15))
    ensures Fired(IDLE, [Change(ChangeEvent("a.txt", false), 0), Change(ChangeEvent("a.txt", false), 5), Tick(10), Tick(15)], 10)
      == [Timer(1, 15)]
  {
    var e := ChangeEvent("a.txt", false);
    NoSeparatorQualifies("a.txt");
    var inputs := [Change(e, 0), Change(e, 5), Tick(10), Tick(15)];
    assert inputs[..3][..2][..1] == [Change(e, 0)];
    assert inputs[..3][..2] == [Change(e, 0), Change(e, 5)];
    assert inputs[..3] == [Change(e, 0), Change(e, 5), Tick(10)];
  }

  /** Two changes further apart than the delay lead to two separate firings. */
  lemma TwoBurstsScenario()
    ensures Fired(IDLE, [Change(ChangeEvent("a.txt", false), 0), Tick(10), Change(ChangeEvent("a.txt", false), 20), Tick(30)], 10)
      == [Timer(0, 10), Timer(1, 30)]
  {
    var e := ChangeEvent("a.txt", false);
    NoSeparatorQualifies("a.txt");
    var inputs := [Change(e, 0), Tick(10), Change(e, 20), Tick(30)];
    var p1, p2, p3 := inputs[..1], inputs[..2], inputs[..3];
    assert p3[..2] == p2 && p2[..1] == p1 && p1[..0] == [];
    assert Run(IDLE, p1, 10) == Slot(Some(Timer(0, 10)), 1);
    assert Fired(IDLE, p1, 10) == [];
    assert Fired(IDLE, p2, 10) == [Timer(0, 10)];
    assert Run(IDLE, p2, 10) == Slot(None, 1);
    assert Run(IDLE, p3, 10) == Slot(Some(Timer(1, 30)), 2);
    assert Fired(IDLE, p3, 10) == [Timer(0, 10)];
  }
}
