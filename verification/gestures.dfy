/**
  The three two-command keys of the add-on, each driven by its own instance
  of the tap machine, and the pass-through of a key press made outside File
  Explorer.

    NVDA+shift+c  single: copy selected names   double: copy address bar
    NVDA+shift+v  single: copy file content     double: invert selection
    NVDA+shift+z  single: say size              double: compress to zip
 */
module Gestures {
  import opened Common
  import opened TapMachine

  datatype Gesture = CopyGesture | InvertGesture | CompressGesture

  datatype Command =
    | CopySelectedNames | CopyAddressBar
    | CopyFileContent | InvertSelection
    | SaySize | CompressZip

  function SingleTapCommand(g: Gesture): Command {
    match g
    case CopyGesture => CopySelectedNames
    case InvertGesture => CopyFileContent
    case CompressGesture => SaySize
  }

  /** The double-tap command. Compress-to-zip is further deferred by 50 ms,
      which only delays it. */
  function DoubleTapCommand(g: Gesture): Command {
    match g
    case CopyGesture => CopyAddressBar
    case InvertGesture => InvertSelection
    case CompressGesture => CompressZip
  }

  /** The command a dispatched action of gesture `g` runs. */
  function CommandFor(g: Gesture, a: Action): (r: Option<Command>)
    ensures r.None? <==> a == NoAction
    ensures a == SingleAction ==> r == Some(SingleTapCommand(g))
    ensures a == DoubleAction ==> r == Some(DoubleTapCommand(g))
  {
    match a
    case NoAction => None
    case SingleAction => Some(SingleTapCommand(g))
    case DoubleAction => Some(DoubleTapCommand(g))
  }

  /** The six commands are distinct: no two (gesture, tap kind) pairs run
      the same command, so an action can always be told from its command. */
  lemma CommandsDistinct(g: Gesture, h: Gesture)
    ensures SingleTapCommand(g) != DoubleTapCommand(h)
    ensures SingleTapCommand(g) == SingleTapCommand(h) ==> g == h
    ensures DoubleTapCommand(g) == DoubleTapCommand(h) ==> g == h
  {
  }

  /** The nine module-level globals, grouped per gesture. */
  datatype Taps = Taps(copy: TapState, invert: TapState, compress: TapState)

  const InitialTaps: Taps := Taps(Initial, Initial, Initial)

  function StateOf(t: Taps, g: Gesture): TapState {
    match g
    case CopyGesture => t.copy
    case InvertGesture => t.invert
    case CompressGesture => t.compress
  }

  function WithState(t: Taps, g: Gesture, s: TapState): (r: Taps)
    ensures StateOf(r, g) == s
    ensures forall h :: h != g ==> StateOf(r, h) == StateOf(t, h)
  {
    match g
    case CopyGesture => t.(copy := s)
    case InvertGesture => t.(invert := s)
    case CompressGesture => t.(compress := s)
  }

  /** `_handleNonExplorerGesture`: the key name to send again is whatever
      follows the first colon of the gesture's display name
      ("kb(desktop):NVDA+shift+c" gives "NVDA+shift+c"); without a colon
      nothing is sent. */
  function KeyNameToReplay(displayName: string): (r: Option<string>)
    ensures r.Some? <==> ':' in displayName
    ensures r.Some? ==> |r.value| < |displayName|
                        && EndsWith(displayName, r.value)
                        && displayName[|displayName| - |r.value| - 1] == ':'
                        && forall k :: 0 <= k < |displayName| - |r.value| - 1 ==> displayName[k] != ':'
  {
    if displayName == "" then None
    else if displayName[0] == ':' then Some(displayName[1..])
    else KeyNameToReplay(displayName[1..])
  }

  datatype GestureResult = GestureResult(taps: Taps, replay: Option<string>, command: Option<Command>)

  /** A press of gesture `g` at time `now`. Outside File Explorer the press is
      replayed and no tap state changes; inside it, only `g`'s machine sees
      the press. */
  function OnGesture(t: Taps, g: Gesture, focus: Option<AppObject>, displayName: string, now: int): (r: GestureResult)
    ensures !InExplorer(focus) ==> r == GestureResult(t, KeyNameToReplay(displayName), None)
    ensures InExplorer(focus) ==> r.replay.None?
    ensures InExplorer(focus) ==> StateOf(r.taps, g) == Tap(StateOf(t, g), now).state
    ensures InExplorer(focus) ==> (r.command == Some(DoubleTapCommand(g)) <==> !Expired(StateOf(t, g), now) && StateOf(t, g).count >= 1)
    ensures r.command != Some(SingleTapCommand(g))
    ensures InExplorer(focus) && !(!Expired(StateOf(t, g), now) && StateOf(t, g).count >= 1) ==> r.command.None?
    ensures forall h :: h != g ==> StateOf(r.taps, h) == StateOf(t, h)
  {
    if !InExplorer(focus) then
      GestureResult(t, KeyNameToReplay(displayName), None)
    else
      var st := Tap(StateOf(t, g), now);
      GestureResult(WithState(t, g, st.state), None, CommandFor(g, st.action))
  }

  /** The timer of gesture `g` firing. */
  function OnTimer(t: Taps, g: Gesture): (r: (Taps, Option<Command>))
    ensures forall h :: h != g ==> StateOf(r.0, h) == StateOf(t, h)
    ensures Consistent(StateOf(t, g)) ==>
              (r.1 == Some(SingleTapCommand(g)) <==> StateOf(t, g).timerPending)
    ensures Consistent(StateOf(t, g)) ==> (r.1.None? <==> !StateOf(t, g).timerPending)
  {
    var st := Fire(StateOf(t, g));
    (WithState(t, g, st.state), CommandFor(g, st.action))
  }

  /** `_cancelAllTimers` (run at shutdown): every armed timer is stopped, so
      none of them will dispatch; counts and tap times are left as they are. */
  function CancelAllTimers(t: Taps): (r: Taps)
    ensures forall g :: !StateOf(r, g).timerPending
    ensures forall g :: StateOf(r, g).count == StateOf(t, g).count
    ensures forall g :: StateOf(r, g).lastTap == StateOf(t, g).lastTap
    ensures forall g :: OnTimer(r, g).1.None?
  {
    Taps(t.copy.(timerPending := false), t.invert.(timerPending := false),
         t.compress.(timerPending := false))
  }

  /** Two quick presses of the copy key in File Explorer copy the address bar,
      and only that: the first press dispatches nothing. */
  lemma DoubleTapCopiesAddressBar(t: Taps, focus: Option<AppObject>, name: string, t0: int, t1: int)
    requires InExplorer(focus)
    requires Idle(StateOf(t, CopyGesture))
    requires 0 <= t1 - t0 <= ThresholdMs
    ensures OnGesture(t, CopyGesture, focus, name, t0).command.None?
    ensures OnGesture(OnGesture(t, CopyGesture, focus, name, t0).taps, CopyGesture, focus, name, t1).command
         == Some(CopyAddressBar)
  {
    var first := OnGesture(t, CopyGesture, focus, name, t0);
    assert StateOf(first.taps, CopyGesture) == TapState(1, t0, true);
  }

  /** A single press of any key in File Explorer, followed by its timer, runs
      the single-tap command; the other keys' state is untouched. */
  lemma SinglePressThenTimer(t: Taps, g: Gesture, focus: Option<AppObject>, name: string, now: int)
    requires InExplorer(focus)
    requires Idle(StateOf(t, g))
    ensures OnTimer(OnGesture(t, g, focus, name, now).taps, g).1 == Some(SingleTapCommand(g))
    ensures forall h :: h != g ==> StateOf(OnTimer(OnGesture(t, g, focus, name, now).taps, g).0, h) == StateOf(t, h)
  {
    var first := OnGesture(t, g, focus, name, now);
    assert StateOf(first.taps, g) == TapState(1, now, true);
  }
}
