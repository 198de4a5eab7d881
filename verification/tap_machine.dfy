/**
  The double-tap disambiguator behind each of the add-on's two-command keys.
  One gesture's state is the tap count, the time of the last tap and whether
  a single-shot timer is armed. A tap arms the timer on the first press and
  dispatches the double-tap action at once on the second; the timer, if it
  fires, dispatches the single-tap action. Time is in integer milliseconds.
 */
module TapMachine {

  /** `int(_double_tap_threshold * 1000)`: both the debounce window and the
      delay the timer is armed with. */
  const ThresholdMs: int := 300

  datatype TapState = TapState(count: nat, lastTap: int, timerPending: bool)

  /** The module-level globals at load time: no taps, last tap at time 0, no
      timer. */
  const Initial: TapState := TapState(0, 0, false)

  datatype Action = NoAction | SingleAction | DoubleAction

  datatype Step = Step(state: TapState, action: Action)

  /** Between sequences: nothing counted and no timer armed. */
  predicate Idle(s: TapState) {
    s.count == 0 && !s.timerPending
  }

  /** The states the machine can be in between events: idle, or one tap
      counted with its timer armed. */
  predicate Consistent(s: TapState) {
    Idle(s) || (s.count == 1 && s.timerPending)
  }

  /** The previous tap lies strictly more than the window in the past. */
  predicate Expired(s: TapState, now: int) {
    now - s.lastTap > ThresholdMs
  }

  /** The `_process...Tap` routine: stop the timer, dispatch on the count,
      reset the count. */
  function Process(s: TapState): (r: Step)
    ensures r.action == SingleAction <==> s.count == 1
    ensures r.action == DoubleAction <==> s.count >= 2
    ensures Idle(r.state) && r.state.lastTap == s.lastTap
  {
    var action := if s.count == 1 then SingleAction
                  else if s.count >= 2 then DoubleAction
                  else NoAction;
    Step(s.(count := 0, timerPending := false), action)
  }

  /** The `script_...` handler for one key press at time `now`. An expired
      sequence is reset (count 0, timer stopped) before the press is counted;
      a count of one arms the timer, a higher count stops it and processes
      immediately. */
  function Tap(s: TapState, now: int): (r: Step)
    ensures r.state.lastTap == now
    ensures Consistent(r.state)
    ensures r.action != SingleAction
    ensures r.action == DoubleAction <==> !Expired(s, now) && s.count >= 1
    ensures r.action == NoAction <==> r.state == TapState(1, now, true)
    ensures Expired(s, now) ==> r == Step(TapState(1, now, true), NoAction)
  {
    var base := if Expired(s, now) then s.(count := 0, timerPending := false) else s;
    var counted := base.(count := base.count + 1, lastTap := now);
    if counted.count == 1 then
      Step(counted.(timerPending := true), NoAction)
    else
      Process(counted.(timerPending := false))
  }

  /** The armed timer firing (`ThresholdMs` after the tap that armed it). A
      stopped timer never fires, so with no timer armed nothing happens. */
  function Fire(s: TapState): (r: Step)
    ensures !s.timerPending ==> r == Step(s, NoAction)
    ensures s.timerPending ==> Idle(r.state)
    ensures Consistent(s) ==> Consistent(r.state)
    ensures Consistent(s) ==> (r.action == SingleAction <==> s.timerPending)
    ensures Consistent(s) ==> r.action != DoubleAction
  {
    if s.timerPending then Process(s) else Step(s, NoAction)
  }

  datatype Event = TapAt(now: int) | TimerFire

  function Apply(s: TapState, e: Event): Step {
    match e
    case TapAt(now) => Tap(s, now)
    case TimerFire => Fire(s)
  }

  /** The dispatched actions of a step, as a sequence (empty for none). */
  function Emitted(a: Action): seq<Action> {
    if a == NoAction then [] else [a]
  }

  datatype Trace = Trace(final: TapState, actions: seq<Action>)

  /** Runs a sequence of events, collecting the dispatched actions. */
  function Run(s: TapState, events: seq<Event>): Trace
    decreases |events|
  {
    if events == [] then Trace(s, [])
    else
      var st := Apply(s, events[0]);
      var rest := Run(st.state, events[1..]);
      Trace(rest.final, Emitted(st.action) + rest.actions)
  }

  function TapCount(events: seq<Event>): nat {
    if events == [] then 0 else (if events[0].TapAt? then 1 else 0) + TapCount(events[1..])
  }

  /** Every dispatched action consumes at least one press: over any run, the
      actions dispatched plus the presses still counted never exceed the
      presses made plus those counted at the start. */
  lemma {:induction false} ActionsBoundedByTaps(s: TapState, events: seq<Event>)
    ensures |Run(s, events).actions| + Run(s, events).final.count <= s.count + TapCount(events)
    decreases |events|
  {
    if events != [] {
      var st := Apply(s, events[0]);
      ActionsBoundedByTaps(st.state, events[1..]);
    }
  }

  /** Consecutive press times no further apart than the window. */
  predicate QuickGaps(ts: seq<int>) {
    forall i :: 0 < i < |ts| ==> ts[i] - ts[i - 1] <= ThresholdMs
  }

  function TapsAt(ts: seq<int>): (evs: seq<Event>)
    ensures |evs| == |ts|
    ensures forall i :: 0 <= i < |ts| ==> evs[i] == TapAt(ts[i])
  {
    if ts == [] then [] else [TapAt(ts[0])] + TapsAt(ts[1..])
  }

  /** A burst of quick presses from an idle state does NOT collapse into one
      double-tap action: because the count is reset after each double
      dispatch, every second press dispatches the double-tap action (n presses
      give n/2 of them) and an odd press count leaves a fresh timer armed for
      a trailing single tap. */
  lemma {:induction false} QuickBurst(s: TapState, ts: seq<int>)
    requires Idle(s)
    requires |ts| >= 1 && QuickGaps(ts)
    ensures forall i :: 0 <= i < |Run(s, TapsAt(ts)).actions| ==> Run(s, TapsAt(ts)).actions[i] == DoubleAction
    ensures 2 * |Run(s, TapsAt(ts)).actions| + Run(s, TapsAt(ts)).final.count == |ts|
    ensures Consistent(Run(s, TapsAt(ts)).final)
    ensures Run(s, TapsAt(ts)).final.lastTap == ts[|ts| - 1]
    decreases |ts|
  {
    if |ts| == 1 {
      var evs := TapsAt(ts);
      assert evs[1..] == [];
      assert Run(TapState(1, ts[0], true), []) == Trace(TapState(1, ts[0], true), []);
    } else {
      var idle := TapState(0, ts[1], false);
      QuickPair(s, ts);
      var tail := Run(idle, TapsAt(ts[2..]));
      if |ts| == 2 {
        assert TapsAt(ts[2..]) == [];
        assert tail == Trace(idle, []);
      } else {
        assert QuickGaps(ts[2..]) by {
          forall i | 0 < i < |ts[2..]|
            ensures ts[2..][i] - ts[2..][i - 1] <= ThresholdMs
          {
            assert ts[2..][i] == ts[i + 2] && ts[2..][i - 1] == ts[i + 1];
          }
        }
        QuickBurst(idle, ts[2..]);
      }
    }
  }

  /** The first two presses of a quick burst from an idle state dispatch the
      double-tap action and leave the machine idle. */
  lemma QuickPair(s: TapState, ts: seq<int>)
    requires Idle(s)
    requires |ts| >= 2 && ts[1] - ts[0] <= ThresholdMs
    ensures Run(s, TapsAt(ts)).final == Run(TapState(0, ts[1], false), TapsAt(ts[2..])).final
    ensures Run(s, TapsAt(ts)).actions == [DoubleAction] + Run(TapState(0, ts[1], false), TapsAt(ts[2..])).actions
  {
    var evs := TapsAt(ts);
    var s1 := TapState(1, ts[0], true);
    assert Tap(s, ts[0]) == Step(s1, NoAction);
    assert Tap(s1, ts[1]) == Step(TapState(0, ts[1], false), DoubleAction);
    assert evs[1..] == TapsAt(ts[1..]);
    assert evs[1..][1..] == TapsAt(ts[2..]);
  }

  /** One press followed by the timer: exactly the single-tap action. */
  lemma SingleTapThenTimer(s: TapState, t: int)
    requires Idle(s)
    ensures Run(s, [TapAt(t), TimerFire]) == Trace(TapState(0, t, false), [SingleAction])
  {
    var evs := [TapAt(t), TimerFire];
    assert evs[1..] == [TimerFire];
    var s1 := TapState(1, t, true);
    assert Tap(s, t) == Step(s1, NoAction);
    assert Run(TapState(0, t, false), []) == Trace(TapState(0, t, false), []);
    assert Run(s1, [TimerFire]) == Trace(TapState(0, t, false), [SingleAction]);
  }

  /** Three quick presses and the timer: a double-tap action, then a
      single-tap action from the timer the third press armed. */
  lemma TripleTap(t: int)
    ensures Run(Initial, [TapAt(t), TapAt(t + 100), TapAt(t + 200), TimerFire]).actions
         == [DoubleAction, SingleAction]
  {
    var evs := [TapAt(t), TapAt(t + 100), TapAt(t + 200), TimerFire];
    QuickBurst(Initial, [t, t + 100, t + 200]);
    assert TapsAt([t, t + 100, t + 200]) == evs[..3];
    RunAppend(Initial, evs[..3], [TimerFire]);
    assert evs[..3] + [TimerFire] == evs;
    SingleTapThenTimer(TapState(0, t + 100, false), t + 200);
    var armed := TapState(1, t + 200, true);
    assert Run(armed, [TimerFire]).actions == [SingleAction] by {
      assert Run(TapState(0, t + 200, false), []).actions == [];
    }
  }

  /** Running two event sequences one after the other. */
  lemma {:induction false} RunAppend(s: TapState, a: seq<Event>, b: seq<Event>)
    ensures Run(s, a + b).final == Run(Run(s, a).final, b).final
    ensures Run(s, a + b).actions == Run(s, a).actions + Run(Run(s, a).final, b).actions
    decreases |a|
  {
    if a == [] {
      assert a + b == b;
    } else {
      assert (a + b)[0] == a[0];
      assert (a + b)[1..] == a[1..] + b;
      RunAppend(Apply(s, a[0]).state, a[1..], b);
    }
  }

  /** A second press arriving after the window while the first press's timer
      has not yet fired stops that timer: the first single-tap action is
      dropped and only the second press's timer dispatches. */
  lemma StaleTimerDropsFirstSingle(t1: int, t2: int)
    requires t2 - t1 > ThresholdMs
    ensures Run(Initial, [TapAt(t1), TapAt(t2), TimerFire]).actions == [SingleAction]
  {
    var evs := [TapAt(t1), TapAt(t2), TimerFire];
    assert evs[1..] == [TapAt(t2), TimerFire];
    var s1 := TapState(1, t1, true);
    assert Tap(Initial, t1) == Step(s1, NoAction);
    assert Tap(s1, t2) == Step(TapState(1, t2, true), NoAction);
    SingleTapThenTimer(TapState(0, t1, false), t2);
    assert Run(TapState(1, t2, true), [TimerFire]).actions == [SingleAction] by {
      assert Run(TapState(0, t2, false), []).actions == [];
    }
  }
}
