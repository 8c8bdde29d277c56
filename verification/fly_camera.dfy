/**
 * The fly camera's input handling: the signed movement axes from the
 * bound keys, the mouse button it tracks as held, what mouse motion does
 * with that button, and the mouse wheel's dolly step.
 *
 * Velocity, friction, the pitch clamp and the rotation itself are float
 * geometry and are not modelled: motion is reported as the action it
 * selects.  Wheel deltas are reals, without float rounding.
 */
module FlyCamera {
  import opened Wrappers

  datatype KeyCode = W | S | A | D | Space | LShift | OtherKey(code: nat)

  datatype MouseButton = Left | Right | Middle | OtherButton(code: nat)

  datatype Camera = Camera(keyForward: KeyCode, keyBackward: KeyCode, keyLeft: KeyCode, keyRight: KeyCode,
                           keyUp: KeyCode, keyDown: KeyCode, enabled: bool, mousePressed: Option<MouseButton>)

  /** The default camera: enabled, no button held, W/S/A/D to walk and Space/LShift to rise and sink. */
  function Default(): (c: Camera)
    ensures c.enabled && c.mousePressed.None?
    ensures c.keyForward == W && c.keyBackward == S && c.keyLeft == A && c.keyRight == D
    ensures c.keyUp == Space && c.keyDown == LShift
  {
    Camera(W, S, A, D, Space, LShift, true, None)
  }

  /** `movement_axis`: +1 for the plus key, -1 for the minus key, summed. */
  function MovementAxis(pressed: set<KeyCode>, plus: KeyCode, minus: KeyCode): (r: int)
    ensures -1 <= r <= 1
    ensures r == 1 <==> plus in pressed && minus !in pressed
    ensures r == -1 <==> minus in pressed && plus !in pressed
    ensures r == 0 <==> (plus in pressed <==> minus in pressed)
  {
    (if plus in pressed then 1 else 0) - (if minus in pressed then 1 else 0)
  }

  /** Holding both keys of an axis cancels out, whatever the binding. */
  lemma BothKeysCancel(pressed: set<KeyCode>, plus: KeyCode, minus: KeyCode)
    requires plus in pressed && minus in pressed
    ensures MovementAxis(pressed, plus, minus) == 0
  {
  }

  datatype Axes = Axes(horizontal: int, vertical: int, float: int)

  /**
   * The keyboard axes of `camera_movement_system`: right/left, then
   * backward/forward, then up/down; a disabled camera gets all zeros.
   */
  function MovementAxes(c: Camera, pressed: set<KeyCode>): (r: Axes)
    ensures !c.enabled ==> r == Axes(0, 0, 0)
    ensures c.enabled ==> r.horizontal == MovementAxis(pressed, c.keyRight, c.keyLeft)
                          && r.vertical == MovementAxis(pressed, c.keyBackward, c.keyForward)
                          && r.float == MovementAxis(pressed, c.keyUp, c.keyDown)
  {
    if c.enabled then
      Axes(MovementAxis(pressed, c.keyRight, c.keyLeft),
           MovementAxis(pressed, c.keyBackward, c.keyForward),
           MovementAxis(pressed, c.keyUp, c.keyDown))
    else Axes(0, 0, 0)
  }

  /** With the default bindings, W alone walks forward, which is the negative vertical axis. */
  lemma DefaultForwardIsNegative()
    ensures MovementAxes(Default(), {W}).vertical == -1 && MovementAxes(Default(), {W}).horizontal == 0
  {
  }

  datatype ButtonEvent = ButtonEvent(button: MouseButton, pressed: bool)

  /** One button event: a press holds that button; a release lets go only of the button being held. */
  function Track(held: Option<MouseButton>, e: ButtonEvent): Option<MouseButton>
  {
    if e.pressed then Some(e.button)
    else if held == Some(e.button) then None
    else held
  }

  /** The events in order. */
  function TrackAll(held: Option<MouseButton>, events: seq<ButtonEvent>): Option<MouseButton>
  {
    if |events| == 0 then held
    else Track(TrackAll(held, events[..|events| - 1]), events[|events| - 1])
  }

  /** After index `i` there is no press at all and no release of `b`. */
  predicate QuietAfter(events: seq<ButtonEvent>, i: int, b: MouseButton)
  {
    forall j :: 0 <= j < |events| && i < j ==> !events[j].pressed && events[j].button != b
  }

  /**
   * `b` is held after the events when the last press was of `b` and `b`
   * was not released since, or when nothing was pressed, `b` was held
   * before and was never released.
   */
  predicate HeldAfter(held: Option<MouseButton>, events: seq<ButtonEvent>, b: MouseButton)
  {
    (exists i :: 0 <= i < |events| && events[i] == ButtonEvent(b, true) && QuietAfter(events, i, b))
    || (held == Some(b) && QuietAfter(events, -1, b))
  }

  /** The tracked button is exactly the one `HeldAfter` describes, and none when no button is. */
  lemma {:induction false} TrackAllHeld(held: Option<MouseButton>, events: seq<ButtonEvent>, b: MouseButton)
    ensures TrackAll(held, events) == Some(b) <==> HeldAfter(held, events, b)
  {
    if |events| > 0 {
      var n := |events| - 1;
      TrackAllHeld(held, events[..n], b);
      var e := events[n];
      if e.pressed {
        HeldAfterPress(held, events, b);
      } else if e.button == b {
        HeldAfterReleaseOf(held, events, b);
      } else {
        HeldAfterReleaseOther(held, events, b);
        if TrackAll(held, events[..n]) == Some(e.button) {
          assert TrackAll(held, events) == None;
        }
      }
    }
  }

  lemma HeldAfterPress(held: Option<MouseButton>, events: seq<ButtonEvent>, b: MouseButton)
    requires |events| > 0 && events[|events| - 1].pressed
    ensures HeldAfter(held, events, b) <==> events[|events| - 1].button == b
  {
    var n := |events| - 1;
    if events[n].button == b {
      assert events[n] == ButtonEvent(b, true) && QuietAfter(events, n, b);
    }
    assert !QuietAfter(events, -1, b) by {
      assert events[n].pressed;
    }
    forall i | 0 <= i < n
      ensures !QuietAfter(events, i, b)
    {
      assert events[n].pressed;
    }
  }

  lemma HeldAfterReleaseOf(held: Option<MouseButton>, events: seq<ButtonEvent>, b: MouseButton)
    requires |events| > 0 && !events[|events| - 1].pressed && events[|events| - 1].button == b
    ensures !HeldAfter(held, events, b)
  {
    var n := |events| - 1;
    forall i | -1 <= i < n
      ensures !QuietAfter(events, i, b)
    {
      assert events[n].button == b;
    }
    assert events[n] != ButtonEvent(b, true);
  }

  lemma HeldAfterReleaseOther(held: Option<MouseButton>, events: seq<ButtonEvent>, b: MouseButton)
    requires |events| > 0 && !events[|events| - 1].pressed && events[|events| - 1].button != b
    ensures HeldAfter(held, events, b) <==> HeldAfter(held, events[..|events| - 1], b)
  {
    var n := |events| - 1;
    var init := events[..n];
    assert forall j :: 0 <= j < n ==> init[j] == events[j];
    if exists i :: 0 <= i < |events| && events[i] == ButtonEvent(b, true) && QuietAfter(events, i, b) {
      var i :| 0 <= i < |events| && events[i] == ButtonEvent(b, true) && QuietAfter(events, i, b);
      assert i < n && init[i] == events[i];
      assert QuietAfter(init, i, b);
    }
    if exists i :: 0 <= i < |init| && init[i] == ButtonEvent(b, true) && QuietAfter(init, i, b) {
      var i :| 0 <= i < |init| && init[i] == ButtonEvent(b, true) && QuietAfter(init, i, b);
      assert events[i] == init[i];
      assert QuietAfter(events, i, b);
    }
    if QuietAfter(init, -1, b) {
      assert QuietAfter(events, -1, b);
    }
  }

  /** The last press wins, and releasing a button that is not held changes nothing. */
  lemma LastPressWins(held: Option<MouseButton>, events: seq<ButtonEvent>, a: MouseButton, b: MouseButton)
    requires a != b
    ensures TrackAll(held, events + [ButtonEvent(a, true)]) == Some(a)
    ensures TrackAll(held, events + [ButtonEvent(b, true), ButtonEvent(a, false)]) == Some(b)
  {
    assert (events + [ButtonEvent(b, true), ButtonEvent(a, false)])[..|events| + 1] == events + [ButtonEvent(b, true)];
    assert (events + [ButtonEvent(a, true)])[..|events|] == events;
    assert (events + [ButtonEvent(b, true)])[..|events|] == events;
  }

  datatype Motion = Rotate | Pan | NoMotion

  /** What mouse motion does with the held button: the left button rotates, the middle one pans, any other does nothing. */
  function MotionFor(held: Option<MouseButton>): (m: Motion)
    ensures m == Rotate <==> held == Some(Left)
    ensures m == Pan <==> held == Some(Middle)
  {
    match held
    case Some(Left) => Rotate
    case Some(Middle) => Pan
    case _ => NoMotion
  }

  /**
   * `mouse_motion_system` over the cameras in query order.  A NaN motion
   * delta returns before anything.  A disabled camera is skipped.  The
   * button events are read through one reader, so the first enabled
   * camera consumes them and later cameras see none.
   */
  function MouseMotion(cameras: seq<Camera>, events: seq<ButtonEvent>, deltaIsNan: bool): (r: (seq<Camera>, seq<Motion>))
    ensures |r.0| == |cameras| && |r.1| == |cameras|
    ensures deltaIsNan ==> r.0 == cameras && forall k :: 0 <= k < |r.1| ==> r.1[k] == NoMotion
    ensures forall k :: 0 <= k < |cameras| && !cameras[k].enabled ==> r.0[k] == cameras[k] && r.1[k] == NoMotion
    ensures forall k :: 0 <= k < |cameras| ==> r.0[k] == cameras[k].(mousePressed := r.0[k].mousePressed)
    ensures !deltaIsNan ==> forall k :: 0 <= k < |cameras| && cameras[k].enabled ==> r.1[k] == MotionFor(r.0[k].mousePressed)
    decreases |cameras|
  {
    if deltaIsNan || |cameras| == 0 then (cameras, seq(|cameras|, _ => NoMotion))
    else
      var c := cameras[0];
      if !c.enabled then
        var rest := MouseMotion(cameras[1..], events, false);
        ([c] + rest.0, [NoMotion] + rest.1)
      else
        var c' := c.(mousePressed := TrackAll(c.mousePressed, events));
        var rest := MouseMotion(cameras[1..], [], false);
        ([c'] + rest.0, [MotionFor(c'.mousePressed)] + rest.1)
  }

  /** With no events, no camera's held button changes. */
  lemma {:induction false} NoEventsKeepHeld(cameras: seq<Camera>, deltaIsNan: bool)
    ensures MouseMotion(cameras, [], deltaIsNan).0 == cameras
    decreases |cameras|
  {
    if !deltaIsNan && |cameras| > 0 {
      NoEventsKeepHeld(cameras[1..], false);
      assert TrackAll(cameras[0].mousePressed, []) == cameras[0].mousePressed;
      assert [cameras[0]] + cameras[1..] == cameras;
    }
  }

  /** Only the first enabled camera sees the button events; every later camera keeps its held button. */
  lemma {:induction false} OnlyFirstEnabledTracks(cameras: seq<Camera>, events: seq<ButtonEvent>, first: nat, k: nat)
    requires first < k < |cameras| && cameras[first].enabled
    requires forall j :: 0 <= j < first ==> !cameras[j].enabled
    ensures MouseMotion(cameras, events, false).0[first].mousePressed == TrackAll(cameras[first].mousePressed, events)
    ensures MouseMotion(cameras, events, false).0[k] == cameras[k]
    decreases first
  {
    if first > 0 {
      OnlyFirstEnabledTracks(cameras[1..], events, first - 1, k - 1);
    } else {
      NoEventsKeepHeld(cameras[1..], false);
    }
  }

  function Sum(ys: seq<real>): real
  {
    if |ys| == 0 then 0.0 else Sum(ys[..|ys| - 1]) + ys[|ys| - 1]
  }

  /**
   * `mouse_wheel_system`: the step along each camera's forward axis is
   * five times the negated sum of the wheel deltas, times the frame time.
   * A zero sum moves nothing; a disabled camera never moves.
   */
  function Wheel(cameras: seq<Camera>, ys: seq<real>, dt: real): (steps: seq<real>)
    ensures |steps| == |cameras|
    ensures Sum(ys) == 0.0 ==> forall k :: 0 <= k < |steps| ==> steps[k] == 0.0
    ensures forall k :: 0 <= k < |cameras| && !cameras[k].enabled ==> steps[k] == 0.0
    ensures forall k, l :: 0 <= k < |cameras| && 0 <= l < |cameras| && cameras[k].enabled && cameras[l].enabled
              ==> steps[k] == steps[l]
  {
    var x := -Sum(ys);
    if x == 0.0 then seq(|cameras|, _ => 0.0)
    else seq(|cameras|, k requires 0 <= k < |cameras| => if cameras[k].enabled then 5.0 * x * dt else 0.0)
  }

  /** Scrolling up (positive deltas) moves an enabled camera backward along its forward axis, and down moves it forward. */
  lemma {:induction false} WheelDirection(cameras: seq<Camera>, ys: seq<real>, dt: real, k: nat)
    requires k < |cameras| && cameras[k].enabled && dt > 0.0
    ensures Sum(ys) > 0.0 ==> Wheel(cameras, ys, dt)[k] < 0.0
    ensures Sum(ys) < 0.0 ==> Wheel(cameras, ys, dt)[k] > 0.0
  {
    var x := -Sum(ys);
    if x < 0.0 {
      assert 5.0 * x * dt == (5.0 * dt) * x;
    } else if x > 0.0 {
      assert 5.0 * x * dt == (5.0 * dt) * x;
    }
  }
}
