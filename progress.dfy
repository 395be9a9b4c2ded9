/**
 * The reading-progress bar (`initReadingProgress`): the share of an article the reader has
 * scrolled through, as a percentage, recomputed at most once per frame. Lengths are exact
 * reals here, not the browser's doubles.
 */
module ReadingProgress {
  import Throttle

  /** `updateProgress`'s piecewise formula for scroll offset `y` between `start` and `end`. */
  function Progress(start: real, end: real, y: real): (p: real)
    ensures 0.0 <= p <= 100.0
    ensures end <= start ==> p == 100.0
    ensures start < end && y <= start ==> p == 0.0
    ensures start < end && y >= end ==> p == 100.0
  {
    if end <= start then 100.0
    else if y <= start then 0.0
    else if y >= end then 100.0
    else ((y - start) / (end - start)) * 100.0
  }

  /** The bar for an article whose top lies `articleTop` from the top of the document
      (its viewport position plus the scroll offset), of height `articleHeight`, in a
      window `windowHeight` high. */
  function ProgressAt(articleTop: real, articleHeight: real, windowHeight: real, y: real): (p: real)
    ensures 0.0 <= p <= 100.0
    ensures articleHeight <= windowHeight ==> p == 100.0
  {
    Progress(articleTop, articleTop + articleHeight - windowHeight, y)
  }

  /** Scrolling further down never moves the bar back. */
  lemma Monotone(start: real, end: real, y1: real, y2: real)
    requires y1 <= y2
    ensures Progress(start, end, y1) <= Progress(start, end, y2)
  {
    if start < end && start < y1 && y2 < end {
      var d := end - start;
      assert (y1 - start) / d <= (y2 - start) / d by {
        DivideMonotone(y1 - start, y2 - start, d);
      }
    }
  }

  lemma DivideMonotone(a: real, b: real, d: real)
    requires a <= b && d > 0.0
    ensures a / d <= b / d
  {
    assert b / d - a / d == (b - a) / d;
  }

  /** Between the two ends the bar is exactly proportional, so the offset can be read
      back from the percentage. */
  lemma Proportional(start: real, end: real, y: real)
    requires start < y < end
    ensures 0.0 < Progress(start, end, y) < 100.0
    ensures start + Progress(start, end, y) / 100.0 * (end - start) == y
  {
    var d := end - start;
    var q := (y - start) / d;
    assert q * d == y - start;
    if q >= 1.0 {
      MultiplyMonotone(1.0, q, d);
      assert false;
    }
    if q <= 0.0 {
      MultiplyMonotone(q, 0.0, d);
      assert false;
    }
  }

  lemma MultiplyMonotone(a: real, b: real, d: real)
    requires a <= b && d > 0.0
    ensures a * d <= b * d
  {
    assert b * d - a * d == (b - a) * d;
  }

  /** An article at 1000px, 4000px high, in an 800px window: the bar starts at offset
      1000, ends at offset 4200, reads 40% at offset 2280 and 50% at offset 2600. */
  lemma WorkedExample()
    ensures ProgressAt(1000.0, 4000.0, 800.0, 1000.0) == 0.0
    ensures ProgressAt(1000.0, 4000.0, 800.0, 4200.0) == 100.0
    ensures ProgressAt(1000.0, 4000.0, 800.0, 2280.0) == 40.0
    ensures ProgressAt(1000.0, 4000.0, 800.0, 2600.0) == 50.0
  {
    assert (2280.0 - 1000.0) / (4200.0 - 1000.0) == 0.4;
    assert (2600.0 - 1000.0) / (4200.0 - 1000.0) == 0.5;
  }

  /** The bar and the `ticking` guard of its scroll listener. */
  class Bar {
    var width: real
    var gate: Throttle.Gate

    ghost predicate Valid()
      reads this
    {
      gate.Valid() && 0.0 <= width <= 100.0
    }

    /** Installing the bar computes it once, eagerly. */
    constructor (articleTop: real, articleHeight: real, windowHeight: real, y: real)
      ensures Valid()
      ensures width == ProgressAt(articleTop, articleHeight, windowHeight, y)
      ensures gate == Throttle.IDLE
    {
      gate := Throttle.IDLE;
      width := ProgressAt(articleTop, articleHeight, windowHeight, y);
    }

    method OnScroll()
      requires Valid()
      modifies this
      ensures Valid()
      ensures gate == Throttle.Scroll(old(gate)) && width == old(width)
    {
      if !gate.ticking {
        gate := Throttle.Gate(true, gate.pending + 1);
      }
    }

    /** A rendered frame with the given layout: the pending `updateProgress`, if any,
        runs once. */
    method OnFrame(articleTop: real, articleHeight: real, windowHeight: real, y: real)
      requires Valid()
      modifies this
      ensures Valid()
      ensures gate == Throttle.Frame(old(gate)).1 == Throttle.IDLE
      ensures width == if old(gate.ticking) then ProgressAt(articleTop, articleHeight, windowHeight, y)
                       else old(width)
    {
      if gate.pending > 0 {
        gate := gate.(pending := gate.pending - 1);
        var start := articleTop;
        var end := articleTop + articleHeight - windowHeight;
        var progress := 0.0;
        if end <= start {
          progress := 100.0;
        } else if y <= start {
          progress := 0.0;
        } else if y >= end {
          progress := 100.0;
        } else {
          progress := ((y - start) / (end - start)) * 100.0;
        }
        width := progress;
        gate := gate.(ticking := false);
      }
    }
  }
}
