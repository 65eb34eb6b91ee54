/**
 * Properties of the input tracker over several events and frames: what reconciliation
 * leaves behind, how an idle key stays idle, the double-release fault, the different
 * ageing rules of keys and mouse buttons, the cursor delta, and the repeat trigger.
 */
module InputLemmas {
  import opened Common
  import Events
  import opened Input

  /** One frame of the application loop: the events that arrived, then `pre_update` after `elapsed` more nanoseconds. */
  datatype Frame = Frame(events: seq<Events.WindowEvent>, elapsed: nat)

  /** Runs whole frames; a double release anywhere stops the run with its fault. */
  function RunFrames(c: CacheState, frames: seq<Frame>): Result<CacheState, Fault>
    decreases |frames|
  {
    if frames == [] then Success(c)
    else
      match ApplyAll(c, frames[0].events)
      case Failure(f) => Failure(f)
      case Success(c') => RunFrames(Reconcile(c', c'.timeNow + frames[0].elapsed), frames[1..])
  }

  /** True when no event of the batch carries `key`. */
  predicate Untouched(events: seq<Events.WindowEvent>, key: Key)
  {
    forall i :: 0 <= i < |events| ==> !(events[i].KeyboardInput? && events[i].virtualKeycode == Some(key))
  }

  /** Every event keeps the timestamps consistent with the clock. */
  lemma OnEventKeepsClocked(c: CacheState, e: Events.WindowEvent)
    requires Clocked(c)
    ensures OnEvent(c, e).Success? ==> Clocked(OnEvent(c, e).value)
  {
  }

  /** After reconciliation nothing is Pressed or Released: every key and button left is held. */
  lemma ReconcileLeavesOnlyHeld(c: CacheState, now: nat, key: Key, b: Events.MouseButton)
    requires now >= c.timeNow
    ensures var r := Reconcile(c, now);
      && (key in r.keyboard <==> key in c.keyboard && !c.keyboard[key].Released?)
      && (key in r.keyboard ==> r.keyboard[key] == Down(c.keyboard[key].start, r.keyboard[key].last))
      && (ButtonSlot(r.buttons, b).Some? <==> ButtonSlot(c.buttons, b).Some? && !ButtonSlot(c.buttons, b).value.Released?)
      && (ButtonSlot(r.buttons, b).Some? ==> ButtonSlot(r.buttons, b).value == Down(ButtonSlot(c.buttons, b).value.start, now))
  {
  }

  /** A batch of events that never names `key` leaves an idle key idle. */
  lemma {:induction false} IdleKeyStaysIdleInBatch(c: CacheState, events: seq<Events.WindowEvent>, key: Key)
    requires key !in c.keyboard
    requires Untouched(events, key)
    ensures ApplyAll(c, events).Success? ==> key !in ApplyAll(c, events).value.keyboard
    decreases |events|
  {
    if events != [] {
      var e := events[0];
      assert !(e.KeyboardInput? && e.virtualKeycode == Some(key));
      match OnEvent(c, e)
      case Failure(_) =>
      case Success(c') =>
        assert key !in c'.keyboard;
        assert Untouched(events[1..], key) by {
          forall i | 0 <= i < |events[1..]|
            ensures !(events[1..][i].KeyboardInput? && events[1..][i].virtualKeycode == Some(key))
          {
            assert events[1..][i] == events[i + 1];
          }
        }
        IdleKeyStaysIdleInBatch(c', events[1..], key);
    }
  }

  /** A key that no event of any frame names stays idle through every frame. */
  lemma {:induction false} IdleKeyStaysIdle(c: CacheState, frames: seq<Frame>, key: Key)
    requires key !in c.keyboard
    requires forall i :: 0 <= i < |frames| ==> Untouched(frames[i].events, key)
    ensures RunFrames(c, frames).Success? ==> key !in RunFrames(c, frames).value.keyboard
    decreases |frames|
  {
    if frames != [] {
      IdleKeyStaysIdleInBatch(c, frames[0].events, key);
      match ApplyAll(c, frames[0].events)
      case Failure(_) =>
      case Success(c') =>
        var r := Reconcile(c', c'.timeNow + frames[0].elapsed);
        assert key !in r.keyboard;
        assert forall i :: 0 <= i < |frames[1..]| ==> Untouched(frames[1..][i].events, key) by {
          forall i | 0 <= i < |frames[1..]| ensures Untouched(frames[1..][i].events, key) {
            assert frames[1..][i] == frames[i + 1];
          }
        }
        IdleKeyStaysIdle(r, frames[1..], key);
    }
  }

  /** Press, release, release of one key within a frame is the fatal double release, whatever the key's state was. */
  lemma DoubleReleaseOfKeyIsFatal(c: CacheState, key: Key)
    ensures ApplyAll(c, [Events.KeyboardInput(Some(key), Events.Pressed),
                         Events.KeyboardInput(Some(key), Events.Released),
                         Events.KeyboardInput(Some(key), Events.Released)]) == Failure(AlreadyReleased)
  {
    var events := [Events.KeyboardInput(Some(key), Events.Pressed),
                   Events.KeyboardInput(Some(key), Events.Released),
                   Events.KeyboardInput(Some(key), Events.Released)];
    var c1 := OnKeyboard(c, Some(key), Events.Pressed).value;
    var c2 := OnKeyboard(c1, Some(key), Events.Released).value;
    assert c2.keyboard[key].Released?;
    assert events[1..][1..] == [events[2]];
    assert ApplyAll(c2, [events[2]]) == Failure(AlreadyReleased);
  }

  /** The same holds for each of the three tracked mouse buttons. */
  lemma DoubleReleaseOfButtonIsFatal(c: CacheState, b: Events.MouseButton)
    requires !b.Other?
    ensures ApplyAll(c, [Events.MouseInput(b, Events.Pressed),
                         Events.MouseInput(b, Events.Released),
                         Events.MouseInput(b, Events.Released)]) == Failure(AlreadyReleased)
  {
    var events := [Events.MouseInput(b, Events.Pressed),
                   Events.MouseInput(b, Events.Released),
                   Events.MouseInput(b, Events.Released)];
    var c1 := OnEvent(c, events[0]).value;
    var c2 := OnEvent(c1, events[1]).value;
    assert ButtonSlot(c2.buttons, b).Some? && ButtonSlot(c2.buttons, b).value.Released?;
    assert events[1..][1..] == [events[2]];
    assert ApplyAll(c2, [events[2]]) == Failure(AlreadyReleased);
  }

  /** A key pressed in one frame is held at the next reconciliation, with its press time kept. */
  lemma PressIsHeldAfterReconcile(c: CacheState, key: Key, now: nat)
    requires key !in c.keyboard && now >= c.timeNow
    ensures var r := Reconcile(OnKeyboard(c, Some(key), Events.Pressed).value, now);
      key in r.keyboard && r.keyboard[key] == Down(c.timeNow, now)
  {
  }

  /** A key or button pressed and released within one frame is idle after the next reconciliation. */
  lemma TapIsIdleAfterReconcile(c: CacheState, key: Key, b: Events.MouseButton, now: nat)
    requires key !in c.keyboard && ButtonSlot(c.buttons, b).None? && !b.Other? && now >= c.timeNow
    ensures var r := ApplyAll(c, [Events.KeyboardInput(Some(key), Events.Pressed),
                                  Events.KeyboardInput(Some(key), Events.Released),
                                  Events.MouseInput(b, Events.Pressed),
                                  Events.MouseInput(b, Events.Released)]);
      r.Success? && r.value.timeNow == c.timeNow && key !in Reconcile(r.value, now).keyboard
      && ButtonSlot(Reconcile(r.value, now).buttons, b).None?
  {
    var events := [Events.KeyboardInput(Some(key), Events.Pressed),
                   Events.KeyboardInput(Some(key), Events.Released),
                   Events.MouseInput(b, Events.Pressed),
                   Events.MouseInput(b, Events.Released)];
    var c1 := OnEvent(c, events[0]).value;
    var c2 := OnEvent(c1, events[1]).value;
    var c3 := OnEvent(c2, events[2]).value;
    var c4 := OnEvent(c3, events[3]).value;
    assert events[1..] == [events[1], events[2], events[3]];
    assert events[1..][1..] == [events[2], events[3]];
    assert events[1..][1..][1..] == [events[3]];
    assert ApplyAll(c3, events[1..][1..][1..]) == Success(c4);
    assert ApplyAll(c2, events[1..][1..]) == Success(c4);
    assert ApplyAll(c1, events[1..]) == Success(c4);
    assert ApplyAll(c, events) == Success(c4);
    assert c4.timeNow == c.timeNow;
    assert c4.keyboard[key].Released? && ButtonSlot(c4.buttons, b).value.Released?;
  }

  /**
   * The two ageing rules differ: a held key's second field grows by the whole clock reading
   * at each reconciliation, a held button's is replaced by it.
   */
  lemma HeldKeyAccumulatesHeldButtonReplaces(c: CacheState, key: Key, now1: nat, now2: nat)
    requires key in c.keyboard && c.keyboard[key].Down?
    requires c.buttons.left.Some? && c.buttons.left.value.Down?
    requires c.timeNow <= now1 <= now2
    ensures var r := Reconcile(Reconcile(c, now1), now2);
      && r.keyboard[key] == Down(c.keyboard[key].start, c.keyboard[key].last + now1 + now2)
      && r.buttons.left == Some(Down(c.buttons.left.value.start, now2))
  {
  }

  /**
   * So a held key's second field can pass the clock, while a button's never does: after a
   * press at 0 and reconciliations at 10 and 20, the key reads Down(0, 30), the button Down(0, 20).
   */
  lemma KeyStampPassesClock()
    ensures var c := OnEvent(OnKeyboard(InitialCache, Some(7), Events.Pressed).value,
                             Events.MouseInput(Events.Left, Events.Pressed)).value;
      var r := Reconcile(Reconcile(c, 10), 20);
      && r.keyboard[7] == Down(0, 30) && r.keyboard[7].last > r.timeNow
      && r.buttons.left == Some(Down(0, 20))
  {
  }

  /** A frame without cursor movement reports no mouse delta. */
  lemma NoDeltaAfterReconcile(c: CacheState, now: nat)
    requires now >= c.timeNow
    ensures MouseDeltaOf(Reconcile(c, now)) == Origin
  {
  }

  /** Two moves report their difference; the first move of all reports nothing. */
  lemma DeltaOfMoves(c: CacheState, p: Events.Position, q: Events.Position)
    ensures MouseDeltaOf(OnCursorMoved(OnCursorMoved(c, p), q)) == Events.Position(q.x - p.x, q.y - p.y)
    ensures MouseDeltaOf(OnCursorMoved(InitialCache, p)) == Origin
  {
  }

  /** Leaving the window zeroes the delta at once, even in a frame where the cursor moved. */
  lemma LeaveZeroesDelta(c: CacheState, p: Events.Position)
    ensures var r := OnEvent(OnCursorMoved(c, p), Events.CursorLeft).value;
      MouseDeltaOf(r) == Origin && !r.cursor.inside
  {
  }

  /** The cursor scenario: move to (5,5), reconcile, move to (8,5). */
  lemma CursorScenario()
    ensures var c1 := OnCursorMoved(InitialCache, Events.Position(5, 5));
      var c2 := Reconcile(c1, 10);
      var c3 := OnCursorMoved(c2, Events.Position(8, 5));
      MouseDeltaOf(c2) == Origin && MouseDeltaOf(c3) == Events.Position(3, 0)
  {
  }

  /** `test_key` called once per frame while a key is held, with the frame deltas `deltas`; counts the firings. */
  function HeldRun(t: Trigger, deltas: seq<real>): (Trigger, nat)
    decreases |deltas|
  {
    if deltas == [] then (t, 0)
    else
      var step := TriggerStep(t, Some(Down(0, 0)), deltas[0]);
      var rest := HeldRun(step.0, deltas[1..]);
      (rest.0, rest.1 + if step.1 then 1 else 0)
  }

  function Sum(deltas: seq<real>): real
    decreases |deltas|
  {
    if deltas == [] then 0.0 else deltas[0] + Sum(deltas[1..])
  }

  /**
   * The trigger loses no time: the accumulator left over plus one threshold per firing is
   * exactly the accumulator at the start plus all the held time.
   */
  lemma {:induction false} HeldRunConserves(t: Trigger, deltas: seq<real>)
    ensures HeldRun(t, deltas).0.threshold == t.threshold
    ensures HeldRun(t, deltas).0.acc + HeldRun(t, deltas).1 as real * t.threshold == t.acc + Sum(deltas)
    decreases |deltas|
  {
    if deltas != [] {
      var step := TriggerStep(t, Some(Down(0, 0)), deltas[0]);
      HeldRunConserves(step.0, deltas[1..]);
      var n := HeldRun(step.0, deltas[1..]).1;
      if step.1 {
        assert (n + 1) as real * t.threshold == n as real * t.threshold + t.threshold;
      }
    }
  }

  /** The repeat scenario: threshold 100 and five held frames of 50 fire twice and keep 50. */
  lemma RepeatScenario()
    ensures HeldRun(Trigger(0.0, 100.0), [50.0, 50.0, 50.0, 50.0, 50.0]) == (Trigger(50.0, 100.0), 2)
  {
    var ds := [50.0, 50.0, 50.0, 50.0, 50.0];
    assert ds[1..] == [50.0, 50.0, 50.0, 50.0];
    assert ds[1..][1..] == [50.0, 50.0, 50.0];
    assert ds[1..][1..][1..] == [50.0, 50.0];
    assert ds[1..][1..][1..][1..] == [50.0];
    assert HeldRun(Trigger(50.0, 100.0), [50.0]) == (Trigger(100.0, 100.0), 0);
    assert HeldRun(Trigger(0.0, 100.0), [50.0, 50.0]) == (Trigger(100.0, 100.0), 0);
    assert HeldRun(Trigger(100.0, 100.0), [50.0, 50.0, 50.0]) == (Trigger(50.0, 100.0), 2);
  }

  /** A single call fires at most once: a long frame leaves the accumulator above the threshold. */
  lemma LongFrameFiresOnce()
    ensures TriggerStep(Trigger(0.0, 100.0), Some(Down(0, 0)), 250.0) == (Trigger(150.0, 100.0), true)
  {
  }
}
