/**
 * The mobile navigation toggle (`initMobileNav`): the toggle button opens and closes the
 * menu and reports it in `aria-expanded`; a click anywhere outside the button and the menu
 * closes the menu.
 */
module MobileNav {

  /** The menu's `open` class and the button's `aria-expanded`. */
  datatype State = State(open: bool, expanded: bool)

  /** Where a click lands. */
  datatype Target = OnToggle | InNav | Elsewhere

  /** The button announces the menu's real state. */
  predicate Synced(s: State) {
    s.expanded == s.open
  }

  /** The button's handler: flip the menu, then report it. */
  function ClickToggle(s: State): (r: State)
    ensures r.open == !s.open && Synced(r)
  {
    var open := !s.open;
    State(open, open)
  }

  /** The document's click handler as written: it closes the menu but leaves
      `aria-expanded` as it was. */
  function OutsideClickAsWritten(s: State, t: Target): (r: State)
    ensures t == Elsewhere ==> !r.open && r.expanded == s.expanded
    ensures t != Elsewhere ==> r == s
  {
    if t == Elsewhere then s.(open := false) else s
  }

  /** A click as the page handles it, as written: the button's own handler runs first,
      then the document's handler sees the bubbled event. */
  function ClickAsWritten(s: State, t: Target): (r: State)
    ensures t == OnToggle ==> r.open == !s.open && Synced(r)
    ensures t == InNav ==> r == s
    ensures t == Elsewhere ==> !r.open && r.expanded == s.expanded
  {
    OutsideClickAsWritten(if t == OnToggle then ClickToggle(s) else s, t)
  }

  /** Opening the menu and then clicking elsewhere leaves the button announcing an open
      menu while the menu is closed. */
  lemma OutsideClickDesyncs()
    ensures var menuOpen := ClickAsWritten(State(false, false), OnToggle);
      && menuOpen.open && Synced(menuOpen)
      && var closed := ClickAsWritten(menuOpen, Elsewhere);
         !closed.open && closed.expanded && !Synced(closed)
  {
  }

  /** The document's click handler with `aria-expanded` reset alongside the class. */
  function OutsideClick(s: State, t: Target): (r: State)
    ensures t == Elsewhere ==> !r.open && Synced(r)
    ensures t != Elsewhere ==> r == s
  {
    if t == Elsewhere then State(false, false) else s
  }

  function Click(s: State, t: Target): (r: State)
    ensures t == OnToggle ==> r.open == !s.open && Synced(r)
    ensures t == InNav ==> r == s
    ensures t == Elsewhere ==> !r.open && Synced(r)
  {
    OutsideClick(if t == OnToggle then ClickToggle(s) else s, t)
  }

  /** With the corrected handler, starting from a state where the button is in step with
      the menu, every sequence of clicks keeps it in step. */
  lemma {:induction false} ClicksKeepSync(s: State, clicks: seq<Target>)
    requires Synced(s)
    ensures Synced(Run(s, clicks))
    decreases |clicks|
  {
    if clicks != [] {
      ClicksKeepSync(Click(s, clicks[0]), clicks[1..]);
    }
  }

  /** A sequence of clicks under the corrected handler: whenever the last click is not
      inside the menu, the button ends in step with the menu, whatever came before. */
  function Run(s: State, clicks: seq<Target>): (r: State)
    ensures clicks != [] && clicks[|clicks| - 1] != InNav ==> Synced(r)
    decreases |clicks|
  {
    if clicks == [] then s else Run(Click(s, clicks[0]), clicks[1..])
  }
}
