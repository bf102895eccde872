/** The polling rhythm scheduler of `playHapticRhythm`.

    A repeating timer ticks every 10 ms. On each tick the closure compares the
    time elapsed since the start of the run with the sum of all gaps before
    the cursor; once that instant has been reached it fires one pulse and
    advances the cursor. When the cursor has passed the last gap the timer
    invalidates itself. Real time, the timer and the haptic generator are
    abstracted: a tick receives its `elapsed` sample as an input and reports
    whether it fired and whether it stopped the timer.
 */
module Scheduler {
  import IntervalMap

  /** Sum of a sequence, folded from the left as `reduce(0, +)` does. */
  function Sum(s: seq<real>): (total: real)
    // a sum of non-negative gaps is non-negative
    ensures (forall k :: 0 <= k < |s| ==> s[k] >= 0.0) ==> total >= 0.0
  {
    if |s| == 0 then 0.0 else Sum(s[..|s| - 1]) + s[|s| - 1]
  }

  /** The instant (relative to the start of the run) at which pulse `i` is
      due: the sum of the gaps strictly before it. */
  function ExpectedTime(intervals: seq<real>, i: nat): (due: real)
    requires i <= |intervals|
    // the first pulse is due at once
    ensures i == 0 ==> due == 0.0
    // no pulse is due before the start when the gaps before it are non-negative
    ensures (forall k :: 0 <= k < i ==> intervals[k] >= 0.0) ==> due >= 0.0
  {
    Sum(intervals[..i])
  }

  /** The state captured by the timer closure: the cursor (`currentIndex`,
      the next pulse to fire) and whether the timer is still scheduled. */
  datatype RunState = RunState(cursor: nat, active: bool)

  /** What one tick of the timer does: the new state, whether it fired a
      pulse, and whether it invalidated the timer. */
  datatype StepResult = StepResult(state: RunState, fired: bool, stopped: bool)

  /** A pulse fired during a run: the index of the gap sequence it belongs
      to and the elapsed sample of the tick that fired it. */
  datatype Pulse = Pulse(index: nat, at: real)

  /** Outcome of a sequence of ticks: the final state and the pulses fired,
      in the order they were fired. */
  datatype RunResult = RunResult(state: RunState, pulses: seq<Pulse>)

  /** The state a run starts in: cursor reset to 0, timer scheduled. */
  const Initial: RunState := RunState(0, true)

  /** One tick of the timer closure. An invalidated timer never ticks again,
      so a tick on an inactive state changes nothing. */
  function Step(st: RunState, intervals: seq<real>, elapsed: real): (r: StepResult)
    // a tick fires at most one pulse and advances the cursor exactly when it fires
    ensures r.state.cursor == if r.fired then st.cursor + 1 else st.cursor
    ensures !(r.fired && r.stopped)
    // a pulse fires exactly when the timer is live, the cursor is in range and its instant has come
    ensures r.fired <==> st.active && st.cursor < |intervals| && elapsed >= ExpectedTime(intervals, st.cursor)
    // the timer stops exactly when a live tick finds every pulse fired
    ensures r.stopped <==> st.active && st.cursor >= |intervals|
    ensures r.state.active <==> st.active && !r.stopped
    // the cursor never leaves [0, |intervals|]
    ensures st.cursor <= |intervals| ==> r.state.cursor <= |intervals|
  {
    if !st.active then
      StepResult(st, false, false)
    else if st.cursor < |intervals| then
      if elapsed >= ExpectedTime(intervals, st.cursor) then
        StepResult(RunState(st.cursor + 1, true), true, false)
      else
        StepResult(st, false, false)
    else
      StepResult(RunState(st.cursor, false), false, true)
  }

  /** The timer driven through a sequence of ticks, one per elapsed sample. */
  function Run(st: RunState, intervals: seq<real>, samples: seq<real>): (r: RunResult)
    // at most one pulse per tick; the cursor only moves forward; a stopped timer never restarts
    ensures |r.pulses| <= |samples|
    ensures st.cursor <= r.state.cursor
    ensures r.state.active ==> st.active
    decreases |samples|
  {
    if |samples| == 0 then
      RunResult(st, [])
    else
      var step := Step(st, intervals, samples[0]);
      var rest := Run(step.state, intervals, samples[1..]);
      RunResult(rest.state, (if step.fired then [Pulse(st.cursor, samples[0])] else []) + rest.pulses)
  }

  /** True when pulse number `j` of `pulses` carries index `from + j`:
      consecutive indices, strictly increasing, none repeated. */
  predicate Consecutive(pulses: seq<Pulse>, from: nat) {
    forall j :: 0 <= j < |pulses| ==> pulses[j].index == from + j
  }

  /** A run fires the indices from the starting cursor up to the final
      cursor, each exactly once and in increasing order, never more than one
      per tick, and the cursor stays within the gap sequence. */
  lemma {:induction false} RunFiresInOrder(st: RunState, intervals: seq<real>, samples: seq<real>)
    requires st.cursor <= |intervals|
    ensures Run(st, intervals, samples).state.cursor <= |intervals|
    ensures st.cursor <= Run(st, intervals, samples).state.cursor
    ensures |Run(st, intervals, samples).pulses| == Run(st, intervals, samples).state.cursor - st.cursor
    ensures Consecutive(Run(st, intervals, samples).pulses, st.cursor)
    ensures |Run(st, intervals, samples).pulses| <= |samples|
    decreases |samples|
  {
    if |samples| > 0 {
      var step := Step(st, intervals, samples[0]);
      RunFiresInOrder(step.state, intervals, samples[1..]);
    }
  }

  /** Every pulse fires on a tick whose elapsed time has reached the pulse's
      scheduled instant: no pulse ever fires early. */
  lemma {:induction false} RunNeverFiresEarly(st: RunState, intervals: seq<real>, samples: seq<real>)
    requires st.cursor <= |intervals|
    ensures forall p :: p in Run(st, intervals, samples).pulses ==>
      p.index < |intervals| && p.at >= ExpectedTime(intervals, p.index)
    decreases |samples|
  {
    if |samples| > 0 {
      var step := Step(st, intervals, samples[0]);
      RunNeverFiresEarly(step.state, intervals, samples[1..]);
    }
  }

  /** Once the timer has been invalidated no tick fires or changes anything. */
  lemma {:induction false} StoppedRunIsInert(st: RunState, intervals: seq<real>, samples: seq<real>)
    requires !st.active
    ensures Run(st, intervals, samples) == RunResult(st, [])
    decreases |samples|
  {
    if |samples| > 0 {
      StoppedRunIsInert(st, intervals, samples[1..]);
    }
  }

  /** A run that has stopped its timer has fired every pulse: starting from
      the initial state, exactly indices 0 .. |intervals|-1, in order. */
  lemma {:induction false} CompletedRunFiresAll(intervals: seq<real>, samples: seq<real>)
    requires !Run(Initial, intervals, samples).state.active
    ensures |Run(Initial, intervals, samples).pulses| == |intervals|
    ensures Consecutive(Run(Initial, intervals, samples).pulses, 0)
  {
    StopsOnlyAtEnd(Initial, intervals, samples);
    RunFiresInOrder(Initial, intervals, samples);
  }

  /** A live run only becomes inactive by reaching the end of the gaps. */
  lemma {:induction false} StopsOnlyAtEnd(st: RunState, intervals: seq<real>, samples: seq<real>)
    requires st.active && st.cursor <= |intervals|
    requires !Run(st, intervals, samples).state.active
    ensures Run(st, intervals, samples).state.cursor == |intervals|
    decreases |samples|
  {
    var step := Step(st, intervals, samples[0]);
    if step.stopped {
      StoppedRunIsInert(step.state, intervals, samples[1..]);
    } else {
      StopsOnlyAtEnd(step.state, intervals, samples[1..]);
    }
  }

  /** The first pulse is due at time 0, the sum of an empty prefix: ticks
      whose elapsed time is still negative leave the start state untouched,
      and the first tick with a non-negative elapsed time fires index 0 and
      nothing else. */
  lemma {:induction false} FirstPulseAtZero(intervals: seq<real>, samples: seq<real>, k: nat)
    requires |intervals| > 0
    requires k < |samples| && samples[k] >= 0.0
    requires forall j :: 0 <= j < k ==> samples[j] < 0.0
    ensures Run(Initial, intervals, samples[..k]) == RunResult(Initial, [])
    ensures Run(Initial, intervals, samples[..k + 1]).pulses == [Pulse(0, samples[k])]
    decreases k
  {
    if k > 0 {
      assert samples[..k][1..] == samples[1..][..k - 1];
      assert samples[..k + 1][1..] == samples[1..][..k];
      FirstPulseAtZero(intervals, samples[1..], k - 1);
    } else {
      assert samples[..1][1..] == [];
    }
  }

  /** The last gap never affects when any pulse fires: two gap sequences
      that agree on everything but their last element drive identical runs. */
  lemma {:induction false} LastGapIrrelevant(st: RunState, a: seq<real>, b: seq<real>, samples: seq<real>)
    requires |a| == |b| > 0
    requires a[..|a| - 1] == b[..|b| - 1]
    ensures Run(st, a, samples) == Run(st, b, samples)
    decreases |samples|
  {
    if |samples| > 0 {
      if st.cursor < |a| {
        assert a[..st.cursor] == a[..|a| - 1][..st.cursor];
        assert b[..st.cursor] == b[..|b| - 1][..st.cursor];
      }
      assert Step(st, a, samples[0]) == Step(st, b, samples[0]);
      LastGapIrrelevant(Step(st, a, samples[0]).state, a, b, samples[1..]);
    }
  }

  /** With non-negative gaps, every pulse is due no later than the total. */
  lemma {:induction false} PrefixSumBounded(intervals: seq<real>, i: nat)
    requires i <= |intervals|
    requires forall k :: 0 <= k < |intervals| ==> intervals[k] >= 0.0
    ensures 0.0 <= ExpectedTime(intervals, i) <= Sum(intervals)
    decreases |intervals|
  {
    if |intervals| > 0 {
      var init := intervals[..|intervals| - 1];
      if i == |intervals| {
        assert intervals[..i] == intervals;
        PrefixSumBounded(init, |init|);
        assert init[..|init|] == init;
      } else {
        assert intervals[..i] == init[..i];
        PrefixSumBounded(init, i);
        PrefixSumBounded(init, |init|);
        assert init[..|init|] == init;
      }
    }
  }

  /** With every gap between lo and hi seconds, pulse i is due no earlier
      than lo * i and no later than hi * i; for the scaled gaps of a
      normalized series that is between 0.2 * i and 0.6 * i. */
  lemma {:induction false} DueTimeWithinGapBounds(intervals: seq<real>, i: nat, lo: real, hi: real)
    requires i <= |intervals|
    requires IntervalMap.AllWithin(intervals, lo, hi)
    ensures lo * (i as real) <= ExpectedTime(intervals, i) <= hi * (i as real)
    decreases i
  {
    if i > 0 {
      DueTimeWithinGapBounds(intervals, i - 1, lo, hi);
      assert intervals[..i][..i - 1] == intervals[..i - 1];
      var prev := ExpectedTime(intervals, i - 1);
      var gap := intervals[i - 1];
      assert ExpectedTime(intervals, i) == prev + gap;
      assert lo <= gap <= hi;
      assert lo * (i as real) == lo * ((i - 1) as real) + lo;
      assert hi * (i as real) == hi * ((i - 1) as real) + hi;
    }
  }

  /** Catch-up: when every tick lands past the end of the whole rhythm and
      there are more ticks than remaining pulses, the run fires every pulse
      it has left, one per tick, and then stops its timer. */
  lemma {:induction false} LateTicksComplete(st: RunState, intervals: seq<real>, samples: seq<real>)
    requires st.active && st.cursor <= |intervals|
    requires forall k :: 0 <= k < |intervals| ==> intervals[k] >= 0.0
    requires forall j :: 0 <= j < |samples| ==> samples[j] >= Sum(intervals)
    requires |samples| > |intervals| - st.cursor
    ensures !Run(st, intervals, samples).state.active
    ensures Run(st, intervals, samples).state.cursor == |intervals|
    decreases |samples|
  {
    var step := Step(st, intervals, samples[0]);
    if st.cursor < |intervals| {
      PrefixSumBounded(intervals, st.cursor);
      assert step.fired;
      LateTicksComplete(step.state, intervals, samples[1..]);
    } else {
      StoppedRunIsInert(step.state, intervals, samples[1..]);
    }
  }

  /** A tick whose cursor is in range but whose elapsed time has not reached
      the cursor's instant leaves the state untouched and fires nothing. */
  lemma EarlyTickIsNoOp(st: RunState, intervals: seq<real>, elapsed: real)
    requires st.active && st.cursor < |intervals|
    requires elapsed < ExpectedTime(intervals, st.cursor)
    ensures Step(st, intervals, elapsed) == StepResult(st, false, false)
  {
  }

  /** The timer slot of the view: either no timer or a scheduled timer with
      the gap sequence and state its closure captured. */
  datatype TimerSlot = NoTimer | Scheduled(intervals: seq<real>, state: RunState)

  /** What pressing "Start Rhythm" leaves behind: the slot holding the new
      timer, and the previous timer's closure after `invalidate()`. */
  datatype Start = Start(slot: TimerSlot, retired: TimerSlot)

  /** Pressing "Start Rhythm": invalidate any previous timer, scale the
      freshly generated series into gaps, and schedule a new timer whose
      cursor starts at 0. The generated series is an input because it is
      random. */
  function PlayHapticRhythm(previous: TimerSlot, raw: seq<real>): (r: Start)
    ensures r.slot.Scheduled? && r.slot.state == Initial
    ensures |r.slot.intervals| == |raw|
    ensures IntervalMap.UnscaleIntervals(r.slot.intervals) == raw
    // the previous closure keeps its gaps and cursor but can no longer tick
    ensures r.retired.Scheduled? <==> previous.Scheduled?
    ensures previous.Scheduled? ==>
      r.retired.intervals == previous.intervals &&
      r.retired.state.cursor == previous.state.cursor && !r.retired.state.active
  {
    IntervalMap.ScaleRoundTrip(raw);
    var retired := match previous
      case NoTimer => NoTimer
      case Scheduled(intervals, st) => Scheduled(intervals, RunState(st.cursor, false));
    Start(Scheduled(IntervalMap.ScaleIntervals(raw), Initial), retired)
  }

  /** Starting a run forgets the previous one entirely: the new run does not
      depend on whatever timer was scheduled before, and the invalidated
      previous closure fires nothing and changes nothing on any later ticks. */
  lemma {:induction false} StartDiscardsPrevious(p: TimerSlot, q: TimerSlot, raw: seq<real>, samples: seq<real>)
    ensures PlayHapticRhythm(p, raw).slot == PlayHapticRhythm(q, raw).slot
    ensures PlayHapticRhythm(p, raw).retired.Scheduled? ==>
      var prior := PlayHapticRhythm(p, raw).retired;
      Run(prior.state, prior.intervals, samples) == RunResult(prior.state, [])
  {
    var retired := PlayHapticRhythm(p, raw).retired;
    if retired.Scheduled? {
      StoppedRunIsInert(retired.state, retired.intervals, samples);
    }
  }

  /** One timer tick seen from the view: the scheduled closure runs, and when
      it stops the timer the slot is cleared (`timer = nil`). With no timer
      nothing happens. */
  function TimerTick(slot: TimerSlot, elapsed: real): (r: (TimerSlot, bool))
    ensures slot.NoTimer? ==> r == (NoTimer, false)
    // a live timer is cleared exactly when its cursor has reached the end, and then fires nothing
    ensures slot.Scheduled? && slot.state.active ==>
      (r.0.NoTimer? <==> slot.state.cursor >= |slot.intervals|)
    ensures r.1 ==> slot.Scheduled? && r.0.Scheduled?
    // a live in-range tick keeps the timer, fires exactly when its pulse is due, and advances the cursor with it
    ensures slot.Scheduled? && slot.state.active && slot.state.cursor < |slot.intervals| ==>
      r.0.Scheduled? && r.0.intervals == slot.intervals && r.0.state.active &&
      (r.1 <==> elapsed >= ExpectedTime(slot.intervals, slot.state.cursor)) &&
      r.0.state.cursor == (if r.1 then slot.state.cursor + 1 else slot.state.cursor)
  {
    match slot
    case NoTimer => (NoTimer, false)
    case Scheduled(intervals, st) =>
      var step := Step(st, intervals, elapsed);
      if step.stopped then (NoTimer, false) else (Scheduled(intervals, step.state), step.fired)
  }

  /** The view's timer slot driven through a sequence of ticks, recording
      each pulse with the cursor it fired and the tick's elapsed time. */
  function TickAll(slot: TimerSlot, samples: seq<real>): (r: (TimerSlot, seq<Pulse>))
    // at most one pulse per tick, and a timer keeps the gaps it was scheduled with
    ensures |r.1| <= |samples|
    ensures r.0.Scheduled? ==> slot.Scheduled? && r.0.intervals == slot.intervals
    decreases |samples|
  {
    if |samples| == 0 then
      (slot, [])
    else
      var r := TimerTick(slot, samples[0]);
      var fired := if r.1 && slot.Scheduled? then [Pulse(slot.state.cursor, samples[0])] else [];
      var rest := TickAll(r.0, samples[1..]);
      (rest.0, fired + rest.1)
  }

  /** The slot that mirrors a closure state: a live state is a scheduled
      timer, an invalidated one has been cleared to `nil`. */
  function SlotOf(intervals: seq<real>, st: RunState): TimerSlot {
    if st.active then Scheduled(intervals, st) else NoTimer
  }

  /** The view-level timer fires exactly the pulses of the closure's fold,
      and ends with its slot cleared exactly when the fold has stopped. */
  lemma {:induction false} TickAllMatchesRun(intervals: seq<real>, st: RunState, samples: seq<real>)
    ensures TickAll(SlotOf(intervals, st), samples).1 == Run(st, intervals, samples).pulses
    ensures TickAll(SlotOf(intervals, st), samples).0 == SlotOf(intervals, Run(st, intervals, samples).state)
    decreases |samples|
  {
    if |samples| > 0 {
      var step := Step(st, intervals, samples[0]);
      if st.active {
        assert TimerTick(SlotOf(intervals, st), samples[0]).0 == SlotOf(intervals, step.state);
        TickAllMatchesRun(intervals, step.state, samples[1..]);
      } else {
        StoppedRunIsInert(st, intervals, samples);
        NoTimerIsInert(samples);
      }
    }
  }

  /** With no timer scheduled, ticks do nothing. */
  lemma {:induction false} NoTimerIsInert(samples: seq<real>)
    ensures TickAll(NoTimer, samples).0 == NoTimer && TickAll(NoTimer, samples).1 == []
    decreases |samples|
  {
    if |samples| > 0 {
      NoTimerIsInert(samples[1..]);
    }
  }

  /** After "Start Rhythm", the view's timer fires the pulses of the
      closure's fold from the start state over the scaled gaps: indices
      0, 1, 2, ... in order, and all of them once the timer has cleared. */
  lemma PlayFiresLikeRun(previous: TimerSlot, raw: seq<real>, samples: seq<real>)
    ensures TickAll(PlayHapticRhythm(previous, raw).slot, samples).1 ==
      Run(Initial, IntervalMap.ScaleIntervals(raw), samples).pulses
    ensures Consecutive(TickAll(PlayHapticRhythm(previous, raw).slot, samples).1, 0)
    ensures TickAll(PlayHapticRhythm(previous, raw).slot, samples).0.NoTimer? ==>
      |TickAll(PlayHapticRhythm(previous, raw).slot, samples).1| == |raw|
  {
    var iv := IntervalMap.ScaleIntervals(raw);
    assert PlayHapticRhythm(previous, raw).slot == SlotOf(iv, Initial);
    TickAllMatchesRun(iv, Initial, samples);
    RunFiresInOrder(Initial, iv, samples);
    if !Run(Initial, iv, samples).state.active {
      CompletedRunFiresAll(iv, samples);
    }
  }
}
