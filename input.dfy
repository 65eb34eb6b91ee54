/**
 * The input state tracker of ufo3000_core/src/input.rs.
 *
 * Every key and mouse button runs a three-state machine (Pressed, Down, Released); an
 * absent keyboard entry or an empty mouse slot means "idle". An `InputCache` receives window
 * events between frames and is reconciled once per frame by `PreUpdate`, which advances the
 * clock, promotes Pressed to Down and evicts Released entries. A `KeyboardManager` turns the
 * held time of registered keys into a repeat trigger.
 *
 * The abstract state of a cache is the value `CacheState`; the functions over it (`OnEvent`,
 * `Reconcile`, the queries) are the specification the classes' methods are proved against.
 * Timestamps are nanoseconds as `nat`; the clock is the parameter `now` of `PreUpdate`.
 */
module Input {
  import opened Common
  import Events

  type Key = Events.Key

  /** The state of one key or mouse button. `start` is the time of the press that began it. */
  datatype InputState =
    | Pressed(start: nat)
    | Down(start: nat, last: nat)
    | Released(start: nat, end: nat)

  /** The one fatal condition of the tracker: a release event for a state already released. */
  datatype Fault = AlreadyReleased

  /** The most recent timestamp a state carries. */
  function Latest(s: InputState): nat
  {
    match s
    case Pressed(t0) => t0
    case Down(_, t) => t
    case Released(_, t) => t
  }

  /**
   * `InputState::update`: the state that replaces `s` (and is returned) after `event` at
   * time `now`. A second release is the "Already released." panic.
   */
  function Transition(s: InputState, event: Events.ElementState, now: nat): (r: Result<InputState, Fault>)
    ensures r.Failure? <==> s.Released? && event.Released?
    ensures r.Success? ==> Latest(r.value) == now
    ensures r.Success? ==> (r.value.Released? <==> event.Released?)
    ensures r.Success? ==> (r.value.Pressed? <==> s.Released?)
    ensures r.Success? && !s.Released? ==> r.value.start == s.start
  {
    match event
    case Pressed =>
      (match s
       case Pressed(t0) => Success(Down(t0, now))
       case Down(t0, _) => Success(Down(t0, now))
       case Released(_, _) => Success(Pressed(now)))
    case Released =>
      (match s
       case Pressed(t0) => Success(Released(t0, now))
       case Down(t0, _) => Success(Released(t0, now))
       case Released(_, _) => Failure(AlreadyReleased))
  }

  /** The three mouse slots (left, middle, right); `None` is an idle button. */
  datatype MouseSlots = MouseSlots(left: Option<InputState>, middle: Option<InputState>, right: Option<InputState>)

  /** The slot of a button; a button other than the three named ones is always idle. */
  function ButtonSlot(m: MouseSlots, b: Events.MouseButton): (r: Option<InputState>)
    ensures b.Other? ==> r.None?
  {
    match b
    case Left => m.left
    case Middle => m.middle
    case Right => m.right
    case Other(_) => None
  }

  /** The new value of one mouse slot after `event`: an idle slot starts over as Pressed. */
  function UpdateSlot(slot: Option<InputState>, event: Events.ElementState, now: nat): (r: Result<InputState, Fault>)
    ensures r.Failure? <==> slot.Some? && slot.value.Released? && event.Released?
    ensures slot.None? ==> r == Success(Pressed(now))
    ensures slot.Some? ==> r == Transition(slot.value, event, now)
  {
    match slot
    case None => Success(Pressed(now))
    case Some(s) => Transition(s, event, now)
  }

  /** `MouseButtons::update` on the slot values: only the named slot changes. */
  function OnButton(m: MouseSlots, b: Events.MouseButton, event: Events.ElementState, now: nat): (r: Result<MouseSlots, Fault>)
    ensures b.Other? ==> r == Success(m)
    ensures r.Failure? <==> !b.Other? && UpdateSlot(ButtonSlot(m, b), event, now).Failure?
    ensures r.Success? && !b.Other? ==> ButtonSlot(r.value, b) == Some(UpdateSlot(ButtonSlot(m, b), event, now).value)
    ensures r.Success? ==> forall b' :: b' != b ==> ButtonSlot(r.value, b') == ButtonSlot(m, b')
  {
    match b
    case Left =>
      (match UpdateSlot(m.left, event, now)
       case Failure(f) => Failure(f)
       case Success(s) => Success(m.(left := Some(s))))
    case Middle =>
      (match UpdateSlot(m.middle, event, now)
       case Failure(f) => Failure(f)
       case Success(s) => Success(m.(middle := Some(s))))
    case Right =>
      (match UpdateSlot(m.right, event, now)
       case Failure(f) => Failure(f)
       case Success(s) => Success(m.(right := Some(s))))
    case Other(_) => Success(m)
  }

  /** The cursor: its last position (absent until the first move) and whether it is inside. */
  datatype CursorPosition = CursorPosition(pos: Option<Events.Position>, inside: bool)

  /** The abstract state of an `InputCache`. */
  datatype CacheState = CacheState(
    keyboard: map<Key, InputState>,
    buttons: MouseSlots,
    cursor: CursorPosition,
    mouseDelta: Events.Position,
    timeNow: nat,
    timeDelta: nat,
    mouseMoved: bool)

  const Origin: Events.Position := Events.Position(0, 0)

  /** The state `InputCache::init` builds: nothing held, no cursor, clock at zero. */
  const InitialCache: CacheState :=
    CacheState(map[], MouseSlots(None, None, None), CursorPosition(None, false), Origin, 0, 0, false)

  /** `key_state`: the state of a key, `None` when it is idle. */
  function KeyStateOf(c: CacheState, key: Key): (r: Option<InputState>)
    ensures r.None? <==> key !in c.keyboard
    ensures r.Some? ==> r.value == c.keyboard[key]
  {
    if key in c.keyboard then Some(c.keyboard[key]) else None
  }

  /** `get_mouse_delta`: the last delta, but only in a frame in which the cursor moved. */
  function MouseDeltaOf(c: CacheState): (d: Events.Position)
    ensures !c.mouseMoved ==> d == Origin
    ensures c.mouseMoved ==> d == c.mouseDelta
  {
    if c.mouseMoved then c.mouseDelta else Origin
  }

  /**
   * `track_keyboard`: an event without a key code is ignored; a key with no entry gets
   * `Pressed(timeNow)` whatever the event; otherwise the entry makes its transition.
   */
  function OnKeyboard(c: CacheState, key: Option<Key>, event: Events.ElementState): (r: Result<CacheState, Fault>)
    ensures key.None? ==> r == Success(c)
    ensures r.Failure? <==> key.Some? && key.value in c.keyboard && c.keyboard[key.value].Released? && event.Released?
    ensures r.Success? ==> r.value == c.(keyboard := r.value.keyboard)
    ensures r.Success? && key.Some? ==>
      && key.value in r.value.keyboard
      && r.value.keyboard == c.keyboard[key.value := r.value.keyboard[key.value]]
    ensures r.Success? && key.Some? && key.value !in c.keyboard ==> r.value.keyboard[key.value] == Pressed(c.timeNow)
    ensures r.Success? && key.Some? && key.value in c.keyboard ==>
      Transition(c.keyboard[key.value], event, c.timeNow) == Success(r.value.keyboard[key.value])
  {
    match key
    case None => Success(c)
    case Some(k) =>
      if k in c.keyboard then
        match Transition(c.keyboard[k], event, c.timeNow)
        case Failure(f) => Failure(f)
        case Success(s) => Success(c.(keyboard := c.keyboard[k := s]))
      else
        Success(c.(keyboard := c.keyboard[k := Pressed(c.timeNow)]))
  }

  /**
   * `track_cursor_movement`: marks the frame as moved and records the position; the delta
   * becomes new minus old, except on the very first sample, which leaves it as it was.
   */
  function OnCursorMoved(c: CacheState, p: Events.Position): (r: CacheState)
    ensures r.mouseMoved && r.cursor == CursorPosition(Some(p), c.cursor.inside)
    ensures c.cursor.pos.None? ==> r.mouseDelta == c.mouseDelta
    ensures c.cursor.pos.Some? ==>
      r.mouseDelta == Events.Position(p.x - c.cursor.pos.value.x, p.y - c.cursor.pos.value.y)
    ensures r == c.(mouseMoved := true, cursor := r.cursor, mouseDelta := r.mouseDelta)
  {
    var delta := match c.cursor.pos
      case None => c.mouseDelta
      case Some(q) => Events.Position(p.x - q.x, p.y - q.y);
    c.(mouseMoved := true, cursor := c.cursor.(pos := Some(p)), mouseDelta := delta)
  }

  /** `InputCache::update`: dispatches one window event to its `track_*` rule. */
  function OnEvent(c: CacheState, e: Events.WindowEvent): (r: Result<CacheState, Fault>)
    ensures r.Failure? ==> e.KeyboardInput? || e.MouseInput?
    ensures e.MouseWheel? || e.Ignored? ==> r == Success(c)
    ensures r.Success? && !e.KeyboardInput? ==> r.value.keyboard == c.keyboard
    ensures r.Success? && !e.MouseInput? ==> r.value.buttons == c.buttons
    ensures r.Success? ==> r.value.timeNow == c.timeNow && r.value.timeDelta == c.timeDelta
    ensures e.CursorLeft? ==> r == Success(c.(mouseDelta := Origin, cursor := c.cursor.(inside := false)))
    ensures e.CursorEntered? ==> r == Success(c.(cursor := c.cursor.(inside := true)))
  {
    match e
    case KeyboardInput(key, st) => OnKeyboard(c, key, st)
    case MouseInput(b, st) =>
      (match OnButton(c.buttons, b, st, c.timeNow)
       case Failure(f) => Failure(f)
       case Success(m) => Success(c.(buttons := m)))
    case MouseWheel(_) => Success(c)
    case CursorMoved(p) => Success(OnCursorMoved(c, p))
    case CursorEntered => Success(c.(cursor := c.cursor.(inside := true)))
    case CursorLeft => Success(c.(mouseDelta := Origin, cursor := c.cursor.(inside := false)))
    case Ignored => Success(c)
  }

  /** Applies a batch of events in order; the first fault stops the batch. */
  function ApplyAll(c: CacheState, events: seq<Events.WindowEvent>): Result<CacheState, Fault>
    decreases |events|
  {
    if events == [] then Success(c)
    else
      match OnEvent(c, events[0])
      case Failure(f) => Failure(f)
      case Success(c') => ApplyAll(c', events[1..])
  }

  /**
   * The per-entry step of the keyboard pass in `pre_update`: Pressed becomes Down at `now`;
   * Down adds `now` to its second field (a running total, unlike the mouse rule).
   */
  function AgeKey(s: InputState, now: nat): (r: InputState)
    ensures r.start == s.start
    ensures s.Released? <==> r.Released?
    ensures s.Pressed? ==> r == Down(s.start, now)
    ensures s.Down? ==> r == Down(s.start, s.last + now)
    ensures s.Released? ==> r == s
  {
    match s
    case Pressed(v) => Down(v, now)
    case Down(st, e) => Down(st, e + now)
    case Released(_, _) => s
  }

  /** The keyboard after `pre_update`: every entry aged, then every Released entry dropped. */
  function ReconcileKeyboard(m: map<Key, InputState>, now: nat): (r: map<Key, InputState>)
    ensures forall k :: k in r <==> k in m && !m[k].Released?
    ensures forall k :: k in r ==> r[k].Down? && r[k].start == m[k].start
    ensures forall k :: k in r && m[k].Pressed? ==> r[k].last == now
    ensures forall k :: k in r && m[k].Down? ==> r[k].last == m[k].last + now
  {
    map k | k in m && !m[k].Released? :: AgeKey(m[k], now)
  }

  /**
   * One mouse slot after `pre_update`: Released becomes idle, Pressed and Down become
   * `Down(start, now)` (the second field is replaced, not accumulated).
   */
  function ReconcileSlot(slot: Option<InputState>, now: nat): (r: Option<InputState>)
    ensures r.None? <==> slot.None? || slot.value.Released?
    ensures r.Some? ==> r.value == Down(slot.value.start, now)
  {
    match slot
    case None => None
    case Some(Released(_, _)) => None
    case Some(Pressed(t0)) => Some(Down(t0, now))
    case Some(Down(t0, _)) => Some(Down(t0, now))
  }

  /**
   * `pre_update` with the clock reading `now`: clears the moved flag, advances the clock,
   * reconciles the mouse slots and the keyboard. The clock must not run backwards (the
   * source subtracts unsigned 128-bit values).
   */
  function Reconcile(c: CacheState, now: nat): (r: CacheState)
    requires now >= c.timeNow
    ensures !r.mouseMoved && r.timeNow == now && r.timeDelta + c.timeNow == now
    ensures r.cursor == c.cursor && r.mouseDelta == c.mouseDelta
    ensures r.keyboard == ReconcileKeyboard(c.keyboard, now)
    ensures forall b :: ButtonSlot(r.buttons, b) == ReconcileSlot(ButtonSlot(c.buttons, b), now)
  {
    CacheState(
      ReconcileKeyboard(c.keyboard, now),
      MouseSlots(ReconcileSlot(c.buttons.left, now), ReconcileSlot(c.buttons.middle, now),
                 ReconcileSlot(c.buttons.right, now)),
      c.cursor, c.mouseDelta, now, now - c.timeNow, false)
  }

  /** A state whose start time comes no later than its latest timestamp. */
  predicate Ordered(s: InputState)
  {
    s.start <= Latest(s)
  }

  /** A mouse slot that is idle, or ordered and stamped no later than `now`. */
  predicate SlotClocked(slot: Option<InputState>, now: nat)
  {
    slot.Some? ==> Ordered(slot.value) && Latest(slot.value) <= now
  }

  /**
   * The timestamps of a cache agree with its clock: nothing started after `timeNow`, and
   * only a keyboard Down (whose second field is a running total) may carry a later stamp.
   */
  ghost predicate Clocked(c: CacheState)
  {
    && (forall k :: k in c.keyboard ==>
          && Ordered(c.keyboard[k])
          && c.keyboard[k].start <= c.timeNow
          && (!c.keyboard[k].Down? ==> Latest(c.keyboard[k]) <= c.timeNow))
    && SlotClocked(c.buttons.left, c.timeNow)
    && SlotClocked(c.buttons.middle, c.timeNow)
    && SlotClocked(c.buttons.right, c.timeNow)
  }

  /** Reconciliation with a clock that does not run backwards keeps the timestamps consistent. */
  lemma ReconcileKeepsClocked(c: CacheState, now: nat)
    requires Clocked(c) && now >= c.timeNow
    ensures Clocked(Reconcile(c, now))
  {
    var r := Reconcile(c, now);
    forall k | k in r.keyboard
      ensures Ordered(r.keyboard[k]) && r.keyboard[k].start <= r.timeNow
    {
      assert c.keyboard[k].start <= c.timeNow;
    }
  }

  /**
   * What the invariant gives a reader of the cache: no key or button reports a press later
   * than the clock, and a button's latest stamp is never ahead of it either.
   */
  lemma ClockedStatesStartedBeforeNow(c: CacheState, key: Key, b: Events.MouseButton)
    requires Clocked(c)
    ensures KeyStateOf(c, key).Some? ==> KeyStateOf(c, key).value.start <= c.timeNow
    ensures ButtonSlot(c.buttons, b).Some? ==>
      ButtonSlot(c.buttons, b).value.start <= Latest(ButtonSlot(c.buttons, b).value) <= c.timeNow
  {
  }

  /** The three mouse slots of `MouseButtons`, updated in place. */
  class MouseButtons {
    var left: Option<InputState>
    var middle: Option<InputState>
    var right: Option<InputState>

    /** The slot values. */
    function Slots(): MouseSlots
      reads this
    {
      MouseSlots(left, middle, right)
    }

    /** `MouseButtons::init`: all three buttons idle. */
    constructor Init()
      ensures Slots() == MouseSlots(None, None, None)
    {
      left, middle, right := None, None, None;
    }

    /**
     * `MouseButtons::update`: the named slot makes its transition (an idle slot becomes
     * Pressed); `ok` is false exactly on a double release, which changes nothing.
     */
    method Update(button: Events.MouseButton, event: Events.ElementState, now: nat) returns (ok: bool)
      modifies this
      ensures ok == OnButton(old(Slots()), button, event, now).Success?
      ensures Slots() == if ok then OnButton(old(Slots()), button, event, now).value else old(Slots())
    {
      ok := true;
      match button {
        case Left =>
          var r := UpdateSlot(left, event, now);
          if r.Success? { left := Some(r.value); } else { ok := false; }
        case Middle =>
          var r := UpdateSlot(middle, event, now);
          if r.Success? { middle := Some(r.value); } else { ok := false; }
        case Right =>
          var r := UpdateSlot(right, event, now);
          if r.Success? { right := Some(r.value); } else { ok := false; }
        case Other(_) =>
      }
    }

    /**
     * The mouse passes of `pre_update`, in the source's order: released buttons become idle,
     * buttons pressed in the previous frame become held, and held buttons are stamped `now`.
     */
    method Reconcile(now: nat)
      modifies this
      ensures left == ReconcileSlot(old(left), now)
      ensures middle == ReconcileSlot(old(middle), now)
      ensures right == ReconcileSlot(old(right), now)
    {
      match left { case Some(Released(_, _)) => left := None; case _ => }
      match middle { case Some(Released(_, _)) => middle := None; case _ => }
      match right { case Some(Released(_, _)) => right := None; case _ => }

      match left { case Some(Pressed(t0)) => left := Some(Down(t0, now)); case _ => }
      match middle { case Some(Pressed(t0)) => middle := Some(Down(t0, now)); case _ => }
      match right { case Some(Pressed(t0)) => right := Some(Down(t0, now)); case _ => }

      match left { case Some(Down(t0, _)) => left := Some(Down(t0, now)); case _ => }
      match middle { case Some(Down(t0, _)) => middle := Some(Down(t0, now)); case _ => }
      match right { case Some(Down(t0, _)) => right := Some(Down(t0, now)); case _ => }
    }

    /** `get_left`, `get_middle`, `get_right`: the state of one button, `None` when idle. */
    function Get(button: Events.MouseButton): (r: Option<InputState>)
      reads this
      ensures button.Left? ==> r == left
      ensures button.Middle? ==> r == middle
      ensures button.Right? ==> r == right
      ensures button.Other? ==> r.None?
    {
      ButtonSlot(Slots(), button)
    }
  }

  /** `InputCache`: keyboard map, mouse slots, cursor, and the frame clock. */
  class InputCache {
    var keyboard: map<Key, InputState>
    const mouseButtons: MouseButtons
    var mousePosition: CursorPosition
    var mouseDelta: Events.Position
    var timeNow: nat
    var timeDelta: nat
    var mouseMoved: bool

    /** The abstract value of the cache. */
    ghost function Model(): CacheState
      reads this, mouseButtons
    {
      CacheState(keyboard, mouseButtons.Slots(), mousePosition, mouseDelta, timeNow, timeDelta, mouseMoved)
    }

    /** The object invariant: the stored timestamps agree with the clock. */
    ghost predicate Valid()
      reads this, mouseButtons
    {
      Clocked(Model())
    }

    /** `InputCache::init`. */
    constructor Init()
      ensures Valid() && Model() == InitialCache
      ensures fresh(mouseButtons)
    {
      keyboard := map[];
      mouseButtons := new MouseButtons.Init();
      mousePosition := CursorPosition(None, false);
      mouseDelta := Origin;
      timeNow, timeDelta := 0, 0;
      mouseMoved := false;
    }

    /** `get_time`. */
    function GetTime(): (t: nat)
      reads this, mouseButtons
      ensures t == Model().timeNow
    {
      timeNow
    }

    /** `get_time_delta`. */
    function GetTimeDelta(): (t: nat)
      reads this, mouseButtons
      ensures t == Model().timeDelta
    {
      timeDelta
    }

    /** `get_mouse_delta`: zero unless the cursor moved since the last `PreUpdate`. */
    function GetMouseDelta(): (d: Events.Position)
      reads this, mouseButtons
      ensures d == MouseDeltaOf(Model())
    {
      if mouseMoved then mouseDelta else Origin
    }

    /** `key_state`. */
    function KeyState(key: Key): (r: Option<InputState>)
      reads this, mouseButtons
      ensures r == KeyStateOf(Model(), key)
    {
      if key in keyboard then Some(keyboard[key]) else None
    }

    /** `mouse_button_state`. */
    function MouseButtonState(button: Events.MouseButton): (r: Option<InputState>)
      reads this, mouseButtons
      ensures r == ButtonSlot(Model().buttons, button)
    {
      mouseButtons.Get(button)
    }

    /** In a valid cache, `key_state` and `mouse_button_state` never report a press later than `get_time`. */
    lemma StartedBeforeNow(key: Key, button: Events.MouseButton)
      requires Valid()
      ensures KeyState(key).Some? ==> KeyState(key).value.start <= GetTime()
      ensures MouseButtonState(button).Some? ==> MouseButtonState(button).value.start <= GetTime()
    {
      ClockedStatesStartedBeforeNow(Model(), key, button);
    }

    /** `pre_update`, with the reading of the monotonic clock passed in as `now`. */
    method PreUpdate(now: nat)
      requires Valid()
      requires now >= timeNow
      modifies this, mouseButtons
      ensures Valid()
      ensures Model() == Reconcile(old(Model()), now)
    {
      mouseMoved := false;

      timeDelta := now - timeNow;
      timeNow := now;

      mouseButtons.Reconcile(timeNow);
      ReconcileKeys(timeNow);
      ReconcileKeepsClocked(old(Model()), now);
    }

    /** The keyboard pass of `pre_update`: every entry is aged in place, then the released ones are dropped. */
    method ReconcileKeys(now: nat)
      modifies this`keyboard
      ensures keyboard == ReconcileKeyboard(old(keyboard), now)
    {
      var pending := keyboard.Keys;
      while pending != {}
        invariant pending <= keyboard.Keys == old(keyboard).Keys
        invariant forall k :: k in keyboard ==>
          keyboard[k] == if k in pending then old(keyboard)[k] else AgeKey(old(keyboard)[k], now)
        decreases pending
      {
        var k :| k in pending;
        keyboard := keyboard[k := AgeKey(keyboard[k], now)];
        pending := pending - {k};
      }
      keyboard := map k | k in keyboard && !keyboard[k].Released? :: keyboard[k];
    }

    /** `InputCache::update`: `ok` is false exactly when the event is a double release. */
    method Update(event: Events.WindowEvent) returns (ok: bool)
      requires Valid()
      modifies this, mouseButtons
      ensures Valid()
      ensures ok == OnEvent(old(Model()), event).Success?
      ensures Model() == if ok then OnEvent(old(Model()), event).value else old(Model())
    {
      ok := true;
      match event {
        case KeyboardInput(key, st) => ok := TrackKeyboard(key, st);
        case MouseInput(b, st) => ok := TrackMouseButton(b, st);
        case MouseWheel(_) =>
        case CursorMoved(p) => TrackCursorMovement(p);
        case CursorEntered => TrackCursorEnter();
        case CursorLeft => TrackCursorLeave();
        case Ignored =>
      }
    }

    /** `track_keyboard`. */
    method TrackKeyboard(key: Option<Key>, event: Events.ElementState) returns (ok: bool)
      requires Valid()
      modifies this
      ensures Valid()
      ensures ok == OnKeyboard(old(Model()), key, event).Success?
      ensures Model() == if ok then OnKeyboard(old(Model()), key, event).value else old(Model())
    {
      ok := true;
      if key.Some? {
        var k := key.value;
        if k in keyboard {
          var r := Transition(keyboard[k], event, timeNow);
          if r.Success? { keyboard := keyboard[k := r.value]; } else { ok := false; }
        } else {
          keyboard := keyboard[k := Pressed(timeNow)];
        }
      }
    }

    /** `track_mouse_button`. */
    method TrackMouseButton(button: Events.MouseButton, event: Events.ElementState) returns (ok: bool)
      requires Valid()
      modifies mouseButtons
      ensures Valid()
      ensures ok == OnEvent(old(Model()), Events.MouseInput(button, event)).Success?
      ensures Model() == if ok then OnEvent(old(Model()), Events.MouseInput(button, event)).value else old(Model())
    {
      ok := mouseButtons.Update(button, event, timeNow);
    }

    /** `track_cursor_movement`. */
    method TrackCursorMovement(p: Events.Position)
      requires Valid()
      modifies this
      ensures Valid()
      ensures Model() == OnCursorMoved(old(Model()), p)
    {
      mouseMoved := true;
      match mousePosition.pos {
        case None =>
          mousePosition := mousePosition.(pos := Some(p));
        case Some(oldPosition) =>
          mouseDelta := Events.Position(p.x - oldPosition.x, p.y - oldPosition.y);
          mousePosition := mousePosition.(pos := Some(p));
      }
    }

    /** `track_cursor_enter`. */
    method TrackCursorEnter()
      requires Valid()
      modifies this
      ensures Valid()
      ensures Model() == old(Model()).(cursor := old(Model()).cursor.(inside := true))
    {
      mousePosition := mousePosition.(inside := true);
    }

    /** `track_cursor_leave`: the delta is zeroed at once. */
    method TrackCursorLeave()
      requires Valid()
      modifies this
      ensures Valid()
      ensures Model() == old(Model()).(mouseDelta := Origin, cursor := old(Model()).cursor.(inside := false))
    {
      mouseDelta := Origin;
      mousePosition := mousePosition.(inside := false);
    }
  }

  /** A registered key of the repeat trigger: accumulated milliseconds and the threshold. */
  datatype Trigger = Trigger(acc: real, threshold: real)

  /** The frame delta in milliseconds, as `test_key` computes it from nanoseconds. */
  function DeltaMillis(timeDelta: nat): real
  {
    timeDelta as real / 1000000.0
  }

  /**
   * One `test_key` step for a registered key in state `state`: a press restarts the
   * accumulator at the frame delta, a release zeroes it, and a held key adds the delta and
   * fires (at most once) when the total passes the threshold, keeping the overshoot.
   */
  function TriggerStep(t: Trigger, state: Option<InputState>, delta: real): (r: (Trigger, bool))
    ensures r.0.threshold == t.threshold
    ensures r.1 <==> state.Some? && state.value.Down? && t.acc + delta > t.threshold
    ensures state.Some? && state.value.Down? ==>
      r.0.acc + (if r.1 then t.threshold else 0.0) == t.acc + delta
    ensures state.Some? && state.value.Pressed? ==> r.0.acc == delta
    ensures state.Some? && state.value.Released? ==> r.0.acc == 0.0
    ensures state.None? ==> r.0 == t
  {
    match state
    case Some(Pressed(_)) => (t.(acc := delta), false)
    case Some(Down(_, _)) =>
      var a := t.acc + delta;
      if a > t.threshold then (t.(acc := a - t.threshold), true) else (t.(acc := a), false)
    case Some(Released(_, _)) => (t.(acc := 0.0), false)
    case None => (t, false)
  }

  /** `KeyboardManager`: the repeat-trigger state of each registered key. */
  class KeyboardManager {
    var keys: map<Key, Trigger>

    /** `KeyboardManager::init`: no key registered. */
    constructor Init()
      ensures keys == map[]
    {
      keys := map[];
    }

    /** `register_key`: (re)registers a key with an empty accumulator. */
    method RegisterKey(key: Key, threshold: real)
      modifies this
      ensures keys == old(keys)[key := Trigger(0.0, threshold)]
    {
      keys := keys[key := Trigger(0.0, threshold)];
    }

    /**
     * `test_key`: advances the trigger of `key` by the state the cache reports and returns
     * whether it fired; an unregistered key never fires and changes nothing.
     */
    method TestKey(key: Key, input: InputCache) returns (fired: bool)
      modifies this
      ensures key !in old(keys) ==> !fired && keys == old(keys)
      ensures key in old(keys) ==>
        var r := TriggerStep(old(keys)[key], input.KeyState(key), DeltaMillis(input.timeDelta));
        fired == r.1 && keys == old(keys)[key := r.0]
    {
      var stateKey := input.KeyState(key);
      fired := false;
      if key in keys {
        var r := TriggerStep(keys[key], stateKey, DeltaMillis(input.GetTimeDelta()));
        keys := keys[key := r.0];
        fired := r.1;
      }
    }
  }
}
