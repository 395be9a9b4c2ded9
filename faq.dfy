/**
 * The FAQ accordion (`initFaqAccordion`): activating an item's question closes every other
 * item and toggles the activated one, keeping each question's `aria-expanded` in step.
 */
module FaqAccordion {

  /** The FAQ items of the page, in document order. `active[k]` is item k's `active`
      class; `expanded[k]` is its question's `aria-expanded` (an absent attribute reads as
      false). Items lacking a question or an answer get no handler. */
  class Accordion {
    const hasQuestion: seq<bool>
    const hasAnswer: seq<bool>
    var active: array<bool>
    var expanded: array<bool>

    ghost predicate Valid()
      reads this
    {
      && active.Length == expanded.Length == |hasQuestion| == |hasAnswer|
      && active != expanded
    }

    /** Item k has both a question and an answer, so its question toggles it. */
    predicate Interactive(k: nat)
      reads this
    {
      k < |hasQuestion| && k < |hasAnswer| && hasQuestion[k] && hasAnswer[k]
    }

    /** No two items are open at once. */
    ghost predicate AtMostOneOpen()
      reads this, active
    {
      forall j, k :: 0 <= j < k < active.Length ==> !(active[j] && active[k])
    }

    /** Every question announces exactly the state of its item. */
    ghost predicate Synced()
      reads this, active, expanded
      requires Valid()
    {
      forall k :: 0 <= k < active.Length && hasQuestion[k] ==> expanded[k] == active[k]
    }

    /** Initialisation: each interactive item's question gets `aria-expanded="false"`;
        the `active` classes are whatever the markup has. */
    constructor (initialActive: seq<bool>, initialExpanded: seq<bool>,
                 questions: seq<bool>, answers: seq<bool>)
      requires |initialActive| == |initialExpanded| == |questions| == |answers|
      ensures Valid() && fresh(active) && fresh(expanded)
      ensures hasQuestion == questions && hasAnswer == answers
      ensures active[..] == initialActive
      ensures forall k :: 0 <= k < expanded.Length ==>
        expanded[k] == (if questions[k] && answers[k] then false else initialExpanded[k])
    {
      hasQuestion, hasAnswer := questions, answers;
      var open := new bool[|initialActive|](k requires 0 <= k < |initialActive| => initialActive[k]);
      assert open[..] == initialActive;
      var flags := new bool[|initialExpanded|](k requires 0 <= k < |initialExpanded| => initialExpanded[k]);
      var k := 0;
      while k < flags.Length
        invariant 0 <= k <= flags.Length
        invariant forall j :: 0 <= j < k ==>
          flags[j] == (if questions[j] && answers[j] then false else initialExpanded[j])
        invariant forall j :: k <= j < flags.Length ==> flags[j] == initialExpanded[j]
        invariant open[..] == initialActive
      {
        if questions[k] && answers[k] {
          flags[k] := false;
        }
        k := k + 1;
      }
      active, expanded := open, flags;
    }

    /** `toggleFaq` for item i: every other item loses `active` and its question (if any)
        gets `aria-expanded="false"`; item i's `active` flips and its question reports it. */
    method Toggle(i: nat)
      requires Valid() && Interactive(i)
      modifies active, expanded
      ensures Valid()
      ensures forall j :: 0 <= j < active.Length && j != i ==> !active[j]
      ensures forall j :: 0 <= j < expanded.Length && j != i && hasQuestion[j] ==> !expanded[j]
      ensures forall j :: 0 <= j < expanded.Length && j != i && !hasQuestion[j] ==> expanded[j] == old(expanded[j])
      ensures active[i] == !old(active[i]) && expanded[i] == active[i]
      ensures AtMostOneOpen() && Synced()
    {
      var k := 0;
      while k < active.Length
        invariant 0 <= k <= active.Length
        invariant forall j :: 0 <= j < k && j != i ==> !active[j]
        invariant forall j :: 0 <= j < k && j != i && hasQuestion[j] ==> !expanded[j]
        invariant forall j :: 0 <= j < expanded.Length && (j >= k || j == i || !hasQuestion[j]) ==>
          expanded[j] == old(expanded[j])
        invariant forall j :: 0 <= j < active.Length && (j >= k || j == i) ==> active[j] == old(active[j])
      {
        if k != i {
          active[k] := false;
          if hasQuestion[k] {
            expanded[k] := false;
          }
        }
        k := k + 1;
      }
      active[i] := !active[i];
      expanded[i] := active[i];
    }

    /** The question's key handler: Enter and Space activate it, other keys do nothing. */
    method OnKeyDown(i: nat, key: string)
      requires Valid() && Interactive(i)
      modifies active, expanded
      ensures Valid()
      ensures key == "Enter" || key == " " ==> active[i] == !old(active[i]) && AtMostOneOpen() && Synced()
      ensures key == "Enter" || key == " " ==> forall j :: 0 <= j < active.Length && j != i ==> !active[j]
      ensures key == "Enter" || key == " " ==>
        forall j :: 0 <= j < expanded.Length && j != i && hasQuestion[j] ==> !expanded[j]
      ensures key == "Enter" || key == " " ==>
        forall j :: 0 <= j < expanded.Length && j != i && !hasQuestion[j] ==> expanded[j] == old(expanded[j])
      ensures key != "Enter" && key != " " ==> active[..] == old(active[..]) && expanded[..] == old(expanded[..])
    {
      if key == "Enter" || key == " " {
        Toggle(i);
      }
    }
  }
}
