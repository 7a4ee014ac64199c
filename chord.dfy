/**
 * The global key listener (`handle_event` in src/main.rs): Alt held plus a
 * CapsLock press flips the overlay's visibility and asks the latest render
 * context, if there is one, to repaint.
 *
 * `Step` and `Run` are the listener as a state machine on values;
 * `Listener.HandleEvent` is the imperative handler, tied to `Step`; the
 * lemmas relate `Run` to an independent reading of an event history.
 */
module Chord {
  import opened Wrappers
  import opened SharedState

  /** The keys the handler tells apart; every other key is `OtherKey`. */
  datatype Key = Alt | CapsLock | OtherKey(code: nat)

  /** A low-level input event: key transitions, and everything else (mouse, wheel). */
  datatype Event = KeyPress(key: Key) | KeyRelease(key: Key) | OtherEvent

  datatype ChordState = ChordState(altPressed: bool, windowVisible: bool)

  /** Alt not held and the overlay shown, as `main` creates them (src/main.rs:91-92). */
  const Start: ChordState := ChordState(false, true)

  /** The event is a CapsLock press while Alt is held. */
  predicate Toggles(s: ChordState, e: Event) {
    e == KeyPress(CapsLock) && s.altPressed
  }

  function Step(s: ChordState, e: Event): ChordState {
    match e
    case KeyPress(k) =>
      if k == Alt then s.(altPressed := true)
      else if k == CapsLock && s.altPressed then s.(windowVisible := !s.windowVisible)
      else s
    case KeyRelease(k) =>
      if k == Alt then s.(altPressed := false) else s
    case OtherEvent => s
  }

  /** The state after handling `events` in order. */
  function Run(s: ChordState, events: seq<Event>): ChordState {
    if events == [] then s else Step(Run(s, events[..|events| - 1]), events[|events| - 1])
  }

  /** Some Alt press in the history has no Alt release after it. */
  ghost predicate AltHeld(events: seq<Event>) {
    exists i :: 0 <= i < |events| && events[i] == KeyPress(Alt) &&
      forall j :: i < j < |events| ==> events[j] != KeyRelease(Alt)
  }

  /** How many CapsLock presses in the history came while Alt was held. */
  ghost function ChordCount(events: seq<Event>): nat {
    if events == [] then 0
    else
      var before := events[..|events| - 1];
      ChordCount(before) + if events[|events| - 1] == KeyPress(CapsLock) && AltHeld(before) then 1 else 0
  }

  lemma AltHeldSnoc(events: seq<Event>, e: Event)
    ensures AltHeld(events + [e]) ==
      if e == KeyPress(Alt) then true
      else if e == KeyRelease(Alt) then false
      else AltHeld(events)
  {
    var es := events + [e];
    if e == KeyPress(Alt) {
      assert es[|events|] == KeyPress(Alt);
    } else if e == KeyRelease(Alt) {
      forall i | 0 <= i < |es| && es[i] == KeyPress(Alt)
        ensures exists j :: i < j < |es| && es[j] == KeyRelease(Alt)
      {
        assert es[|events|] == KeyRelease(Alt);
      }
    } else {
      if AltHeld(events) {
        var i :| 0 <= i < |events| && events[i] == KeyPress(Alt) &&
          forall j :: i < j < |events| ==> events[j] != KeyRelease(Alt);
        assert es[i] == KeyPress(Alt);
        assert forall j :: i < j < |es| ==> es[j] != KeyRelease(Alt) by {
          forall j | i < j < |es| ensures es[j] != KeyRelease(Alt) {
            if j < |events| { assert es[j] == events[j]; }
          }
        }
      }
      if AltHeld(es) {
        var i :| 0 <= i < |es| && es[i] == KeyPress(Alt) &&
          forall j :: i < j < |es| ==> es[j] != KeyRelease(Alt);
        assert i < |events| && events[i] == KeyPress(Alt);
        assert forall j :: i < j < |events| ==> events[j] != KeyRelease(Alt) by {
          forall j | i < j < |events| ensures events[j] != KeyRelease(Alt) {
            assert es[j] == events[j];
          }
        }
      }
    }
  }

  /**
   * From Alt not held, the listener's Alt flag is "some Alt press has not
   * been released", and the visibility has flipped once per CapsLock press
   * made while Alt was held.
   */
  lemma {:induction false} RunCountsChords(visible: bool, events: seq<Event>)
    ensures Run(ChordState(false, visible), events)
         == ChordState(AltHeld(events), visible != Odd(ChordCount(events)))
  {
    if events != [] {
      var before, e := events[..|events| - 1], events[|events| - 1];
      assert events == before + [e];
      RunCountsChords(visible, before);
      AltHeldSnoc(before, e);
    }
  }

  /** From the start state the overlay is visible exactly when an even number of chords occurred. */
  lemma RunFromStart(events: seq<Event>)
    ensures Run(Start, events).windowVisible == !Odd(ChordCount(events))
    ensures Run(Start, events).altPressed == AltHeld(events)
  {
    RunCountsChords(true, events);
  }

  /** Without any Alt press nothing ever toggles. */
  lemma {:induction false} NoToggleWithoutAlt(visible: bool, events: seq<Event>)
    requires forall i :: 0 <= i < |events| ==> events[i] != KeyPress(Alt)
    ensures Run(ChordState(false, visible), events) == ChordState(false, visible)
  {
    if events != [] {
      NoToggleWithoutAlt(visible, events[..|events| - 1]);
    }
  }

  /** Handling one history after another is handling their concatenation. */
  lemma {:induction false} RunAppend(s: ChordState, a: seq<Event>, b: seq<Event>)
    ensures Run(s, a + b) == Run(Run(s, a), b)
  {
    if b != [] {
      assert (a + b)[..|a + b| - 1] == a + b[..|b| - 1];
      RunAppend(s, a, b[..|b| - 1]);
    } else {
      assert a + b == a;
    }
  }

  /** One full chord (Alt down, CapsLock down, Alt up) flips visibility once from any state. */
  lemma ChordFlipsOnce(s: ChordState)
    ensures Run(s, [KeyPress(Alt), KeyPress(CapsLock), KeyRelease(Alt)])
         == ChordState(false, !s.windowVisible)
  {
    var es := [KeyPress(Alt), KeyPress(CapsLock), KeyRelease(Alt)];
    assert es[..2] == [KeyPress(Alt), KeyPress(CapsLock)];
    assert es[..2][..1] == [KeyPress(Alt)];
    assert es[..2][..1][..0] == [];
    var s1 := Run(s, [KeyPress(Alt)]);
    assert s1 == ChordState(true, s.windowVisible);
    var s2 := Run(s, es[..2]);
    assert s2 == ChordState(true, !s.windowVisible);
  }

  /** The listener: its own Alt flag plus the state it shares with the render loop. */
  class Listener {
    var altPressed: bool
    const shared: Shared

    constructor (shared: Shared)
      ensures altPressed == false
      ensures this.shared == shared
    {
      altPressed := false;
      this.shared := shared;
    }

    function State(): ChordState
      reads this, shared
    {
      ChordState(altPressed, shared.windowVisible)
    }

    /**
     * Handles one event; `repaint` is the context asked to repaint, if
     * any: only on a toggle, and only when a context has been published.
     */
    method HandleEvent(e: Event) returns (repaint: Option<Context>)
      modifies this, shared
      ensures State() == Step(old(State()), e)
      ensures shared.ctx == old(shared.ctx)
      ensures repaint == if Toggles(old(State()), e) then old(shared.ctx) else None
      ensures e == KeyPress(Alt) ==> altPressed && shared.windowVisible == old(shared.windowVisible)
      ensures e == KeyRelease(Alt) ==> !altPressed && shared.windowVisible == old(shared.windowVisible)
      ensures e == KeyPress(CapsLock) && old(altPressed) ==>
        altPressed && shared.windowVisible == !old(shared.windowVisible)
      ensures !Toggles(old(State()), e) && e != KeyPress(Alt) && e != KeyRelease(Alt) ==>
        altPressed == old(altPressed) && shared.windowVisible == old(shared.windowVisible)
    {
      repaint := None;
      match e
      case KeyPress(k) =>
        if k == Alt {
          altPressed := true;
        } else if k == CapsLock && altPressed {
          var current := shared.windowVisible;
          shared.windowVisible := !current;
          if shared.ctx.Some? {
            repaint := shared.ctx;
          }
        }
      case KeyRelease(k) =>
        if k == Alt {
          altPressed := false;
        }
      case OtherEvent =>
    }
  }

  /**
   * From a hidden overlay, Alt then CapsLock shows it; the repaint goes to
   * the published context, and without one nothing is asked of anyone.
   */
  method ChordFromHidden(published: Option<Context>) returns (visible: bool, repaint: Option<Context>)
    ensures visible
    ensures repaint == published
  {
    var shared := new Shared(false);
    if published.Some? {
      shared.Publish(published.value);
    }
    var listener := new Listener(shared);
    var none := listener.HandleEvent(KeyPress(Alt));
    repaint := listener.HandleEvent(KeyPress(CapsLock));
    visible := shared.windowVisible;
  }
}
