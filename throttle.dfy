/**
 * The `ticking` guard that both scroll listeners (smart header, reading progress) put
 * around `requestAnimationFrame`: a scroll event queues a frame callback only when none is
 * pending, and the callback clears the flag when it runs. `pending` counts the callbacks
 * the browser has queued; the scheduling itself is not modelled.
 */
module Throttle {

  datatype Gate = Gate(ticking: bool, pending: nat) {
    /** At most one callback is queued, and `ticking` says exactly whether one is. */
    predicate Valid() {
      pending <= 1 && (ticking <==> pending == 1)
    }
  }

  const IDLE := Gate(false, 0)

  /** The scroll listener: when no frame is queued, it queues one and raises the flag;
      otherwise it does nothing. */
  function Scroll(g: Gate): (r: Gate)
    ensures g.Valid() ==> r.Valid() && r.pending == 1
    ensures g.ticking ==> r == g
  {
    if !g.ticking then Gate(true, g.pending + 1) else g
  }

  /** A rendered frame: each queued callback runs once and clears `ticking`.
      Returns how many updates ran and the gate afterwards. */
  function Frame(g: Gate): (r: (nat, Gate))
    ensures r.1.pending == 0
    ensures g.Valid() ==> r.0 <= 1 && r.1 == IDLE
    ensures g.Valid() ==> (r.0 == 1 <==> g.ticking)
  {
    (g.pending, if g.pending > 0 then Gate(false, 0) else Gate(g.ticking, 0))
  }

  datatype Event = ScrollEvent | FrameEvent

  /** Runs a trace of events from `g`; returns the final gate and how many updates ran. */
  function Run(g: Gate, events: seq<Event>): (r: (Gate, nat))
    ensures r.1 + r.0.pending <= g.pending + |events|
    decreases |events|
  {
    if events == [] then (g, 0)
    else
      var (g1, k) := if events[0] == ScrollEvent then (Scroll(g), 0) else (Frame(g).1, Frame(g).0);
      var (g2, m) := Run(g1, events[1..]);
      (g2, k + m)
  }

  function CountOf(events: seq<Event>, e: Event): nat {
    if events == [] then 0 else (if events[0] == e then 1 else 0) + CountOf(events[1..], e)
  }

  /** Over any trace the gate stays valid, the updates never outnumber the frames, and,
      apart from a callback already queued at the start, they never outnumber the scroll
      events: many scroll events within one frame coalesce into one update. */
  lemma {:induction false} RunCoalesces(g: Gate, events: seq<Event>)
    requires g.Valid()
    ensures Run(g, events).0.Valid()
    ensures Run(g, events).1 <= CountOf(events, FrameEvent)
    ensures Run(g, events).1 <= CountOf(events, ScrollEvent) + g.pending
    ensures Run(g, events).1 + Run(g, events).0.pending <= CountOf(events, ScrollEvent) + g.pending
    decreases |events|
  {
    if events != [] {
      if events[0] == ScrollEvent {
        RunCoalesces(Scroll(g), events[1..]);
      } else {
        RunCoalesces(Frame(g).1, events[1..]);
      }
    }
  }

  /** No scroll is lost: whatever the state, a scroll event followed by a frame runs
      exactly one update. */
  lemma ScrollThenFrameUpdatesOnce(g: Gate)
    requires g.Valid()
    ensures Run(g, [ScrollEvent, FrameEvent]).1 == 1
    ensures Run(g, [ScrollEvent, FrameEvent]).0 == IDLE
  {
    assert [ScrollEvent, FrameEvent][1..] == [FrameEvent];
    assert [FrameEvent][1..] == [];
  }
}
