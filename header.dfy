/**
 * The smart header (`initSmartHeader`): a throttled scroll listener that marks the header
 * "scrolled" past 80px and "hidden" while scrolling down past 200px.
 */
module SmartHeader {
  import Throttle

  const SCROLLED_AFTER := 80.0
  const HIDE_AFTER := 200.0

  /** The header's two classes after an update. */
  datatype View = View(scrolled: bool, hidden: bool)

  /** `updateHeader`'s decision for the scroll offset `y` when the previous update saw `lastY`. */
  function Decide(lastY: real, y: real): (v: View)
    ensures v.scrolled <==> y > SCROLLED_AFTER
    ensures v.hidden ==> v.scrolled && y > lastY
    ensures y <= lastY || y <= HIDE_AFTER ==> !v.hidden
    ensures y > lastY && y > HIDE_AFTER ==> v.hidden
  {
    View(y > SCROLLED_AFTER, y > lastY && y > HIDE_AFTER)
  }

  /** In any trace of updates, an update that does not move further down than the one
      before it shows the header, and no update at 200px or less hides it. */
  lemma {:induction false} UpwardScrollShows(ys: seq<real>, last: real)
    ensures forall k :: 0 <= k < |ys| && ys[k] <= (if k == 0 then last else ys[k - 1]) ==>
      !Trace(last, ys)[k].hidden
    ensures forall k :: 0 <= k < |ys| && ys[k] <= HIDE_AFTER ==> !Trace(last, ys)[k].hidden
  {
    TraceAt(last, ys);
    forall k | 0 <= k < |ys|
      ensures ys[k] <= (if k == 0 then last else ys[k - 1]) ==> !Trace(last, ys)[k].hidden
      ensures ys[k] <= HIDE_AFTER ==> !Trace(last, ys)[k].hidden
    {
      var v := Decide(if k == 0 then last else ys[k - 1], ys[k]);
      assert Trace(last, ys)[k] == v;
    }
  }

  /** The views produced by successive updates at offsets `ys`, starting from `last`. */
  function Trace(last: real, ys: seq<real>): (vs: seq<View>)
    ensures |vs| == |ys|
    decreases |ys|
  {
    if ys == [] then [] else [Decide(last, ys[0])] + Trace(ys[0], ys[1..])
  }

  lemma {:induction false} TraceAt(last: real, ys: seq<real>)
    ensures |Trace(last, ys)| == |ys|
    ensures forall k :: 0 <= k < |ys| ==>
      Trace(last, ys)[k] == Decide(if k == 0 then last else ys[k - 1], ys[k])
    decreases |ys|
  {
    if ys != [] {
      TraceAt(ys[0], ys[1..]);
    }
  }

  /** The listener's state: the closure variables `lastScrollY` and `ticking` (inside the
      gate) and the header's two classes. */
  class Header {
    var lastScrollY: real
    var scrolled: bool
    var hidden: bool
    var gate: Throttle.Gate

    ghost predicate Valid()
      reads this
    {
      gate.Valid() && (hidden ==> scrolled)
    }

    /** Installing the listener records the current offset; the header starts without
        either class. */
    constructor (initialScrollY: real)
      ensures Valid()
      ensures lastScrollY == initialScrollY && !scrolled && !hidden && gate == Throttle.IDLE
    {
      lastScrollY := initialScrollY;
      scrolled, hidden := false, false;
      gate := Throttle.IDLE;
    }

    /** A scroll event: queue an update unless one is already pending. */
    method OnScroll()
      requires Valid()
      modifies this
      ensures Valid()
      ensures gate == Throttle.Scroll(old(gate)) && gate.ticking && gate.pending == 1
      ensures lastScrollY == old(lastScrollY) && scrolled == old(scrolled) && hidden == old(hidden)
    {
      if !gate.ticking {
        gate := Throttle.Gate(true, gate.pending + 1);
      }
    }

    /** `updateHeader`, run by a frame at scroll offset `y`. */
    method UpdateHeader(y: real)
      modifies this
      ensures View(scrolled, hidden) == Decide(old(lastScrollY), y)
      ensures lastScrollY == y
      ensures gate == old(gate).(ticking := false)
    {
      if y > SCROLLED_AFTER {
        scrolled := true;
      } else {
        scrolled := false;
      }
      if y > lastScrollY && y > HIDE_AFTER {
        hidden := true;
      } else {
        hidden := false;
      }
      lastScrollY := y;
      gate := gate.(ticking := false);
    }

    /** A rendered frame at scroll offset `y`: the pending update, if any, runs once. */
    method OnFrame(y: real)
      requires Valid()
      modifies this
      ensures Valid()
      ensures gate == Throttle.Frame(old(gate)).1 == Throttle.IDLE
      ensures old(gate.ticking) ==> View(scrolled, hidden) == Decide(old(lastScrollY), y) && lastScrollY == y
      ensures !old(gate.ticking) ==>
        lastScrollY == old(lastScrollY) && scrolled == old(scrolled) && hidden == old(hidden)
    {
      if gate.pending > 0 {
        gate := gate.(pending := gate.pending - 1);
        UpdateHeader(y);
      }
    }
  }
}
