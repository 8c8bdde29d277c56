/**
 * The editor's translation of window input into egui's raw input: key
 * codes, cursor icons, mouse buttons, modifier flags, typed text, key
 * events with the clipboard shortcuts, and the hand-over of the collected
 * input at the start of a frame.
 *
 * Pointer positions are floats and are left out of the events; every
 * event is delivered to one window's input.
 */
module EguiIntegrate {
  import opened Wrappers

  /** The window system's key codes this translation looks at; digits and letters are grouped. */
  datatype BevyKey =
    | Down | Left | Right | Up | Escape | Tab | Back | Return | Space
    | Insert | Delete | Home | End | PageUp | PageDown
    | Numpad(digit: nat) | TopRowDigit(digit: nat) | Letter(c: char)
    | LShift | RShift | LControl | RControl | LAlt | RAlt | LWin | RWin
    | OtherKey(code: nat)

  datatype EguiKey =
    | ArrowDown | ArrowLeft | ArrowRight | ArrowUp | EscapeKey | TabKey | Backspace | Enter | SpaceKey
    | InsertKey | DeleteKey | HomeKey | EndKey | PageUpKey | PageDownKey
    | Num(digit: nat) | LetterKey(c: char)

  predicate IsLetter(c: char)
  {
    'A' <= c <= 'Z'
  }

  /** Digits are 0 to 9 and letters A to Z. */
  predicate ValidBevyKey(k: BevyKey)
  {
    match k
    case Numpad(d) => d < 10
    case TopRowDigit(d) => d < 10
    case Letter(c) => IsLetter(c)
    case _ => true
  }

  predicate ValidEguiKey(k: EguiKey)
  {
    match k
    case Num(d) => d < 10
    case LetterKey(c) => IsLetter(c)
    case _ => true
  }

  /**
   * `bevy_to_egui_key`: navigation and editing keys map to their egui
   * names, a numpad digit and the top-row digit map to the same egui
   * digit, letters map to the same letter, and every other key (the
   * modifiers included) maps to none.
   */
  function BevyToEguiKey(k: BevyKey): (r: Option<EguiKey>)
    requires ValidBevyKey(k)
    ensures r.Some? ==> ValidEguiKey(r.value)
    ensures (k.Numpad? || k.TopRowDigit?) ==> r == Some(Num(k.digit))
    ensures k.Letter? ==> r == Some(LetterKey(k.c))
    ensures r.None? <==> k.OtherKey? || k in {LShift, RShift, LControl, RControl, LAlt, RAlt, LWin, RWin}
  {
    match k
    case Down => Some(ArrowDown)
    case Left => Some(ArrowLeft)
    case Right => Some(ArrowRight)
    case Up => Some(ArrowUp)
    case Escape => Some(EscapeKey)
    case Tab => Some(TabKey)
    case Back => Some(Backspace)
    case Return => Some(Enter)
    case Space => Some(SpaceKey)
    case Insert => Some(InsertKey)
    case Delete => Some(DeleteKey)
    case Home => Some(HomeKey)
    case End => Some(EndKey)
    case PageUp => Some(PageUpKey)
    case PageDown => Some(PageDownKey)
    case Numpad(d) => Some(Num(d))
    case TopRowDigit(d) => Some(Num(d))
    case Letter(c) => Some(LetterKey(c))
    case _ => None
  }

  /** A key code that produces each egui key; digits come from the top row. */
  function EguiToBevyKey(k: EguiKey): (r: BevyKey)
    requires ValidEguiKey(k)
    ensures ValidBevyKey(r)
  {
    match k
    case ArrowDown => Down
    case ArrowLeft => Left
    case ArrowRight => Right
    case ArrowUp => Up
    case EscapeKey => Escape
    case TabKey => Tab
    case Backspace => Back
    case Enter => Return
    case SpaceKey => Space
    case InsertKey => Insert
    case DeleteKey => Delete
    case HomeKey => Home
    case EndKey => End
    case PageUpKey => PageUp
    case PageDownKey => PageDown
    case Num(d) => TopRowDigit(d)
    case LetterKey(c) => Letter(c)
  }

  /** Every egui key is reached, and a key code that maps is the inverse's choice or the numpad twin of it. */
  lemma KeyRoundTrip(e: EguiKey, k: BevyKey)
    requires ValidEguiKey(e) && ValidBevyKey(k)
    ensures BevyToEguiKey(EguiToBevyKey(e)) == Some(e)
    ensures BevyToEguiKey(k) == Some(e) ==> k == EguiToBevyKey(e) || k == Numpad(e.digit)
  {
  }

  /** Two key codes give the same egui key only when they are the same code or the two keys of one digit. */
  lemma KeyTranslationCollisions(a: BevyKey, b: BevyKey)
    requires ValidBevyKey(a) && ValidBevyKey(b) && a != b
    requires BevyToEguiKey(a).Some? && BevyToEguiKey(a) == BevyToEguiKey(b)
    ensures (a.Numpad? && b.TopRowDigit? && a.digit == b.digit) || (a.TopRowDigit? && b.Numpad? && a.digit == b.digit)
  {
  }

  datatype EguiCursor =
    | DefaultCursor | PointingHand | ResizeHorizontal | ResizeNeSw | ResizeNwSe | ResizeVertical
    | TextCursor | Grab | Grabbing | ContextMenu | Help | Progress | Wait | Cell | Crosshair
    | VerticalText | Alias | CopyCursor | Move | NoDrop | NotAllowed | AllScroll | ZoomIn | ZoomOut
    | NoCursor

  datatype WindowCursor =
    | WDefault | Hand | EwResize | NeswResize | NwseResize | NsResize
    | WText | WGrab | WGrabbing | WContextMenu | WHelp | WProgress | WWait | WCell | WCrosshair
    | WVerticalText | WAlias | WCopy | WMove | WNoDrop | WNotAllowed | WAllScroll | WZoomIn | WZoomOut

  /** `egui_to_winit_cursor_icon`: the hidden cursor has no window icon; every other icon has one. */
  function EguiToWindowCursor(c: EguiCursor): (r: Option<WindowCursor>)
    ensures r.None? <==> c == NoCursor
  {
    match c
    case DefaultCursor => Some(WDefault)
    case PointingHand => Some(Hand)
    case ResizeHorizontal => Some(EwResize)
    case ResizeNeSw => Some(NeswResize)
    case ResizeNwSe => Some(NwseResize)
    case ResizeVertical => Some(NsResize)
    case TextCursor => Some(WText)
    case Grab => Some(WGrab)
    case Grabbing => Some(WGrabbing)
    case ContextMenu => Some(WContextMenu)
    case Help => Some(WHelp)
    case Progress => Some(WProgress)
    case Wait => Some(WWait)
    case Cell => Some(WCell)
    case Crosshair => Some(WCrosshair)
    case VerticalText => Some(WVerticalText)
    case Alias => Some(WAlias)
    case CopyCursor => Some(WCopy)
    case Move => Some(WMove)
    case NoDrop => Some(WNoDrop)
    case NotAllowed => Some(WNotAllowed)
    case AllScroll => Some(WAllScroll)
    case ZoomIn => Some(WZoomIn)
    case ZoomOut => Some(WZoomOut)
    case NoCursor => None
  }

  /** The egui icon for a window icon. */
  function WindowToEguiCursor(w: WindowCursor): (c: EguiCursor)
    ensures c != NoCursor
  {
    match w
    case WDefault => DefaultCursor
    case Hand => PointingHand
    case EwResize => ResizeHorizontal
    case NeswResize => ResizeNeSw
    case NwseResize => ResizeNwSe
    case NsResize => ResizeVertical
    case WText => TextCursor
    case WGrab => Grab
    case WGrabbing => Grabbing
    case WContextMenu => ContextMenu
    case WHelp => Help
    case WProgress => Progress
    case WWait => Wait
    case WCell => Cell
    case WCrosshair => Crosshair
    case WVerticalText => VerticalText
    case WAlias => Alias
    case WCopy => CopyCursor
    case WMove => Move
    case WNoDrop => NoDrop
    case WNotAllowed => NotAllowed
    case WAllScroll => AllScroll
    case WZoomIn => ZoomIn
    case WZoomOut => ZoomOut
  }

  /** The visible egui icons and the window icons correspond one to one. */
  lemma CursorBijection(c: EguiCursor, w: WindowCursor)
    ensures EguiToWindowCursor(WindowToEguiCursor(w)) == Some(w)
    ensures c != NoCursor ==> WindowToEguiCursor(EguiToWindowCursor(c).value) == c
  {
    WindowCursorRoundTrip(w);
    if c != NoCursor {
      EguiCursorRoundTrip(c);
    }
  }

  lemma WindowCursorRoundTrip(w: WindowCursor)
    ensures EguiToWindowCursor(WindowToEguiCursor(w)) == Some(w)
  {
  }

  lemma EguiCursorRoundTrip(c: EguiCursor)
    requires c != NoCursor
    ensures WindowToEguiCursor(EguiToWindowCursor(c).value) == c
  {
  }

  datatype MouseButton = LeftButton | RightButton | MiddleButton | OtherButton(code: nat)

  datatype PointerButton = Primary | Secondary | MiddlePointer

  datatype Modifiers = Modifiers(alt: bool, ctrl: bool, shift: bool, macCmd: bool, command: bool)

  datatype Event =
    | PointerButtonEvent(button: PointerButton, pressed: bool, modifiers: Modifiers)
    | Text(text: string)
    | KeyEvent(key: EguiKey, pressed: bool, modifiers: Modifiers)
    | Copy
    | Cut

  /**
   * `process_mouse_button_event`: the left, right and middle buttons are
   * egui's primary, secondary and middle buttons, and any other button
   * panics (`None`).  A button just pressed pushes a press; otherwise one
   * just released pushes a release; otherwise nothing is pushed.
   */
  function ProcessMouseButton(events: seq<Event>, modifiers: Modifiers, justPressed: set<MouseButton>,
                              justReleased: set<MouseButton>, b: MouseButton): (r: Option<seq<Event>>)
    ensures r.None? <==> b.OtherButton?
    ensures r.Some? && b !in justPressed && b !in justReleased ==> r.value == events
    ensures r.Some? && (b in justPressed || b in justReleased) ==>
              |r.value| == |events| + 1 && r.value[..|events|] == events
              && r.value[|events|].PointerButtonEvent?
              && r.value[|events|].pressed == (b in justPressed)
              && r.value[|events|].modifiers == modifiers
    ensures r.Some? && (b in justPressed || b in justReleased) ==>
              (r.value[|events|].button == Primary <==> b == LeftButton)
              && (r.value[|events|].button == Secondary <==> b == RightButton)
              && (r.value[|events|].button == MiddlePointer <==> b == MiddleButton)
  {
    var button := match b
      case LeftButton => Some(Primary)
      case RightButton => Some(Secondary)
      case MiddleButton => Some(MiddlePointer)
      case OtherButton(_) => None;
    if button.None? then None
    else if b in justPressed then Some(events + [PointerButtonEvent(button.value, true, modifiers)])
    else if b in justReleased then Some(events + [PointerButtonEvent(button.value, false, modifiers)])
    else Some(events)
  }

  /** The three buttons the input system asks about, left then right then middle; none of them panics. */
  function PointerButtons(events: seq<Event>, modifiers: Modifiers, justPressed: set<MouseButton>,
                          justReleased: set<MouseButton>): (r: seq<Event>)
    ensures |events| <= |r| <= |events| + 3 && r[..|events|] == events
  {
    var a := ProcessMouseButton(events, modifiers, justPressed, justReleased, LeftButton).value;
    var b := ProcessMouseButton(a, modifiers, justPressed, justReleased, RightButton).value;
    ProcessMouseButton(b, modifiers, justPressed, justReleased, MiddleButton).value
  }

  /**
   * The modifier flags: each is either of its two keys; `mac_cmd` is the
   * Windows/Command key on macOS and false elsewhere; `command` is that
   * key on macOS and Control elsewhere.
   */
  function ModifiersFrom(pressed: set<BevyKey>, isMac: bool): (m: Modifiers)
    ensures m.shift <==> LShift in pressed || RShift in pressed
    ensures m.ctrl <==> LControl in pressed || RControl in pressed
    ensures m.alt <==> LAlt in pressed || RAlt in pressed
    ensures !isMac ==> !m.macCmd && m.command == m.ctrl
    ensures isMac ==> m.macCmd == m.command && (m.command <==> LWin in pressed || RWin in pressed)
  {
    var shift := LShift in pressed || RShift in pressed;
    var ctrl := LControl in pressed || RControl in pressed;
    var alt := LAlt in pressed || RAlt in pressed;
    var win := LWin in pressed || RWin in pressed;
    Modifiers(alt, ctrl, shift, if isMac then win else false, if isMac then win else ctrl)
  }

  /** Unicode's control characters: U+0000 to U+001F and U+007F to U+009F. */
  predicate IsControl(c: char)
  {
    c <= '\U{1F}' || ('\U{7F}' <= c <= '\U{9F}')
  }

  /**
   * Received characters become one-character Text events, in order,
   * control characters dropped; nothing is forwarded while Control or the
   * Windows/Command key is held.
   */
  function ReceivedText(chars: seq<char>, ctrl: bool, win: bool): (r: seq<Event>)
    ensures ctrl || win ==> r == []
    ensures forall e :: e in r ==> e.Text? && |e.text| == 1 && !IsControl(e.text[0]) && e.text[0] in chars
    ensures !ctrl && !win ==> forall c :: c in chars && !IsControl(c) ==> Text([c]) in r
    ensures |r| <= |chars|
  {
    if ctrl || win then [] else TextEvents(chars)
  }

  function TextEvents(chars: seq<char>): (r: seq<Event>)
    ensures forall e :: e in r ==> e.Text? && |e.text| == 1 && !IsControl(e.text[0]) && e.text[0] in chars
    ensures forall c :: c in chars && !IsControl(c) ==> Text([c]) in r
    ensures |r| <= |chars|
  {
    if |chars| == 0 then []
    else
      var init := TextEvents(chars[..|chars| - 1]);
      var c := chars[|chars| - 1];
      assert forall x :: x in chars ==> x in chars[..|chars| - 1] || x == c;
      if IsControl(c) then init else init + [Text([c])]
  }

  /** A single character is forwarded as itself, unless it is a control character. */
  lemma TextEventsOne(c: char)
    ensures TextEvents([c]) == if IsControl(c) then [] else [Text([c])]
  {
    assert [c][..0] == [];
  }

  /** Forwarding distributes over the stream, so the characters keep their order. */
  lemma {:induction false} TextEventsAppend(a: seq<char>, b: seq<char>)
    ensures TextEvents(a + b) == TextEvents(a) + TextEvents(b)
    decreases |b|
  {
    if |b| == 0 {
      assert a + b == a;
    } else {
      assert (a + b)[..|a + b| - 1] == a + b[..|b| - 1];
      TextEventsAppend(a, b[..|b| - 1]);
    }
  }

  datatype KeyboardInput = KeyboardInput(keyCode: Option<BevyKey>, pressed: bool)

  predicate ValidInput(ev: KeyboardInput)
  {
    ev.keyCode.Some? ==> ValidBevyKey(ev.keyCode.value)
  }

  /**
   * One keyboard event: a key with an egui name gives a Key event; then,
   * with `command` held, C adds Copy, X adds Cut and V adds the clipboard's
   * text when it has some.
   */
  function KeyInput(ev: KeyboardInput, modifiers: Modifiers, clipboard: Option<string>): (r: seq<Event>)
    requires ValidInput(ev)
    ensures ev.keyCode.None? || BevyToEguiKey(ev.keyCode.value).None? ==> r == []
    ensures ev.keyCode.Some? && BevyToEguiKey(ev.keyCode.value).Some? ==>
              1 <= |r| <= 2 && r[0] == KeyEvent(BevyToEguiKey(ev.keyCode.value).value, ev.pressed, modifiers)
    ensures |r| == 2 <==> modifiers.command && ev.keyCode.Some? &&
                          (ev.keyCode.value == Letter('C') || ev.keyCode.value == Letter('X')
                           || (ev.keyCode.value == Letter('V') && clipboard.Some?))
    ensures |r| == 2 ==> (r[1] == Copy <==> ev.keyCode.value == Letter('C'))
                         && (r[1] == Cut <==> ev.keyCode.value == Letter('X'))
                         && (ev.keyCode.value == Letter('V') ==> r[1] == Text(clipboard.value))
  {
    match ev.keyCode
    case None => []
    case Some(code) =>
      match BevyToEguiKey(code)
      case None => []
      case Some(key) =>
        var keyEvent := [KeyEvent(key, ev.pressed, modifiers)];
        if !modifiers.command then keyEvent
        else if key == LetterKey('C') then keyEvent + [Copy]
        else if key == LetterKey('X') then keyEvent + [Cut]
        else if key == LetterKey('V') && clipboard.Some? then keyEvent + [Text(clipboard.value)]
        else keyEvent
  }

  /** The keyboard events in order, each one's output after the previous one's. */
  function KeyInputs(evs: seq<KeyboardInput>, modifiers: Modifiers, clipboard: Option<string>): seq<Event>
    requires forall i :: 0 <= i < |evs| ==> ValidInput(evs[i])
  {
    if |evs| == 0 then []
    else KeyInputs(evs[..|evs| - 1], modifiers, clipboard) + KeyInput(evs[|evs| - 1], modifiers, clipboard)
  }

  /** Without `command`, the keyboard produces only Key events: no copy, cut or paste. */
  lemma {:induction false} NoCommandOnlyKeys(evs: seq<KeyboardInput>, modifiers: Modifiers, clipboard: Option<string>)
    requires forall i :: 0 <= i < |evs| ==> ValidInput(evs[i])
    requires !modifiers.command
    ensures forall e :: e in KeyInputs(evs, modifiers, clipboard) ==> e.KeyEvent?
    ensures |KeyInputs(evs, modifiers, clipboard)| <= |evs|
  {
    if |evs| > 0 {
      NoCommandOnlyKeys(evs[..|evs| - 1], modifiers, clipboard);
    }
  }

  /** Ctrl+V off macOS pastes the clipboard right after the V key event. */
  lemma PasteFollowsKey(pressed: set<BevyKey>, clip: string)
    requires LControl in pressed
    ensures var m := ModifiersFrom(pressed, false);
            KeyInput(KeyboardInput(Some(Letter('V')), true), m, Some(clip))
            == [KeyEvent(LetterKey('V'), true, m), Text(clip)]
  {
  }

  /**
   * `begin_frame`: every context takes its window's collected input,
   * which is reset; a context without an input panics (`None`).  Inputs
   * of windows without a context are left alone.
   */
  function BeginFrame<W>(contexts: set<W>, inputs: map<W, seq<Event>>): (r: Option<(map<W, seq<Event>>, map<W, seq<Event>>)>)
    ensures r.None? <==> exists w :: w in contexts && w !in inputs
    ensures r.Some? ==> r.value.0.Keys == contexts && forall w :: w in contexts ==> r.value.0[w] == inputs[w]
    ensures r.Some? ==> r.value.1.Keys == inputs.Keys
    ensures r.Some? ==> forall w :: w in inputs ==> r.value.1[w] == (if w in contexts then [] else inputs[w])
  {
    if exists w :: w in contexts && w !in inputs then None
    else
      Some((map w | w in contexts :: inputs[w],
            map w | w in inputs :: if w in contexts then [] else inputs[w]))
  }

  /** Input is handed over once: a second frame with nothing new collected gives every context an empty input. */
  lemma InputHandedOverOnce<W>(contexts: set<W>, inputs: map<W, seq<Event>>, w: W)
    requires BeginFrame(contexts, inputs).Some? && w in contexts
    ensures var after := BeginFrame(contexts, inputs).value.1;
            BeginFrame(contexts, after).Some? && BeginFrame(contexts, after).value.0[w] == []
  {
  }
}
