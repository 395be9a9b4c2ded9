/**
 * Automatic reveal classes (`autoApplyReveals`): before the reveal observer starts, every
 * element matched by one of a fixed list of selectors and not already tagged gets a reveal
 * category; cards, steps, guides and FAQ items also get a stagger delay by their index in
 * their selector's match list.
 */
module AutoReveal {
  import opened Text

  const REVEAL_SELECTORS: seq<string> := [
    ".method-card", ".funnel-step", ".review-card", ".guide-card", ".faq-item",
    ".info-box", ".disclaimer-section", ".stats-showcase", ".newsletter-section",
    ".share-section", ".link-block", ".comparison-table-wrapper", ".start-funnel",
    "section > h2", "section > p"
  ]

  /** The classes that mean an element already has a reveal category. */
  predicate Tagged(classes: set<string>) {
    "reveal" in classes || "reveal-scale" in classes
  }

  /** The classes whose elements reveal one after another. */
  predicate Staggered(classes: set<string>) {
    "method-card" in classes || "funnel-step" in classes || "guide-card" in classes || "faq-item" in classes
  }

  /** The stagger class of the element at `index` in its selector's list: one of five
      numbered buckets, cycling with the index. */
  function DelayClass(index: nat): (c: string)
    ensures |c| == 14 && c[..13] == "reveal-delay-"
    ensures '1' <= c[13] <= '5' && c[13] as int - '0' as int == index % 5 + 1
  {
    "reveal-delay-" + NatToDecimal(index % 5 + 1)
  }

  /** Five neighbours in a match list never share a delay bucket. */
  lemma DelaysStagger(i: nat, j: nat)
    requires i < j < i + 5
    ensures DelayClass(i) != DelayClass(j)
  {
    assert DelayClass(i)[13] != DelayClass(j)[13];
  }

  /** The classes of one element after its turn, at position `index` of its match list. */
  function Classify(classes: set<string>, index: nat): (r: set<string>)
    ensures classes <= r && Tagged(r)
    ensures Tagged(classes) ==> r == classes
    ensures !Tagged(classes) ==> ("reveal" in r <==> "reveal-scale" !in r)
    ensures !Tagged(classes) ==> ("reveal-scale" in r <==> !Staggered(classes) && "stats-showcase" in classes)
    ensures !Tagged(classes) && Staggered(classes) ==> r - classes <= {"reveal", DelayClass(index)} && DelayClass(index) in r
    ensures !Tagged(classes) && !Staggered(classes) ==>
      r - classes <= (if "stats-showcase" in classes then {"reveal-scale"} else {"reveal"})
    ensures forall c :: c in r - classes ==> c == "reveal" || c == "reveal-scale" || c == DelayClass(index)
  {
    if Tagged(classes) then classes
    else if Staggered(classes) then classes + {"reveal", DelayClass(index)}
    else if "stats-showcase" in classes then classes + {"reveal-scale"}
    else classes + {"reveal"}
  }

  /** Every match list points into the document. */
  predicate InRange(matches: seq<seq<nat>>, n: nat) {
    forall s, i :: 0 <= s < |matches| && 0 <= i < |matches[s]| ==> matches[s][i] < n
  }

  /** The document after the first `n` elements of one selector's match list had their turn. */
  function ApplyList(doc: seq<set<string>>, ms: seq<nat>, n: nat): (r: seq<set<string>>)
    requires n <= |ms| && forall i :: 0 <= i < |ms| ==> ms[i] < |doc|
    ensures |r| == |doc|
  {
    if n == 0 then doc
    else
      var d := ApplyList(doc, ms, n - 1);
      d[ms[n - 1] := Classify(d[ms[n - 1]], n - 1)]
  }

  /** The document after the first `s` selectors had their turn. */
  function ApplyAll(doc: seq<set<string>>, matches: seq<seq<nat>>, s: nat): (r: seq<set<string>>)
    requires s <= |matches| && InRange(matches, |doc|)
    ensures |r| == |doc|
  {
    if s == 0 then doc
    else
      var d := ApplyAll(doc, matches, s - 1);
      ApplyList(d, matches[s - 1], |matches[s - 1]|)
  }

  /** The step relation both folds keep: classes only grow, an element outside the match
      lists is untouched, and each element is either untouched or classified exactly once
      from its original classes. */
  ghost predicate Refines(before: seq<set<string>>, after: seq<set<string>>, touched: set<nat>) {
    && |before| == |after|
    && (forall e :: 0 <= e < |after| ==> before[e] <= after[e])
    && (forall e :: 0 <= e < |after| && e !in touched ==> after[e] == before[e])
    && (forall e :: 0 <= e < |after| ==>
          after[e] == before[e] || exists k: nat :: after[e] == Classify(before[e], k))
    && (forall e :: e in touched && 0 <= e < |after| ==> Tagged(after[e]))
  }

  function Members(ms: seq<nat>, n: nat): set<nat>
    requires n <= |ms|
  {
    set i | 0 <= i < n :: ms[i]
  }

  function AllMembers(matches: seq<seq<nat>>, s: nat): set<nat>
    requires s <= |matches|
  {
    set t, i | 0 <= t < s && 0 <= i < |matches[t]| :: matches[t][i]
  }

  lemma {:induction false} ApplyListRefines(doc: seq<set<string>>, ms: seq<nat>, n: nat)
    requires n <= |ms| && forall i :: 0 <= i < |ms| ==> ms[i] < |doc|
    ensures Refines(doc, ApplyList(doc, ms, n), Members(ms, n))
  {
    if n > 0 {
      ApplyListRefines(doc, ms, n - 1);
      var d := ApplyList(doc, ms, n - 1);
      var e := ms[n - 1];
      var r := ApplyList(doc, ms, n);
      assert Members(ms, n) == Members(ms, n - 1) + {e};
      if !Tagged(d[e]) {
        // an untagged element has not been classified yet
        assert d[e] == doc[e];
        assert r[e] == Classify(doc[e], n - 1);
      }
    }
  }

  /** Within one selector's turn, an element is classified at the position of its first
      match in the list, so its delay bucket comes from that position. */
  lemma {:induction false} ApplyListPositions(doc: seq<set<string>>, ms: seq<nat>, n: nat)
    requires n <= |ms| && forall i :: 0 <= i < |ms| ==> ms[i] < |doc|
    ensures forall i :: 0 <= i < n && ms[i] !in Members(ms, i) ==>
      ApplyList(doc, ms, n)[ms[i]] == Classify(doc[ms[i]], i)
  {
    if n > 0 {
      ApplyListPositions(doc, ms, n - 1);
      ApplyListRefines(doc, ms, n - 1);
      var d := ApplyList(doc, ms, n - 1);
      var e := ms[n - 1];
      forall i | 0 <= i < n && ms[i] !in Members(ms, i)
        ensures ApplyList(doc, ms, n)[ms[i]] == Classify(doc[ms[i]], i)
      {
        if i == n - 1 {
          assert d[e] == doc[e];
        } else if ms[i] == e {
          assert Tagged(d[e]);
        }
      }
    }
  }

  lemma RefinesCompose(a: seq<set<string>>, b: seq<set<string>>, c: seq<set<string>>, t1: set<nat>, t2: set<nat>)
    requires Refines(a, b, t1) && Refines(b, c, t2)
    ensures Refines(a, c, t1 + t2)
  {
    forall e | 0 <= e < |c|
      ensures c[e] == a[e] || exists k: nat :: c[e] == Classify(a[e], k)
    {
      if c[e] != b[e] {
        // c changed the element, so b had not tagged it, so b left it as a had it
        var k: nat :| c[e] == Classify(b[e], k);
        assert !Tagged(b[e]);
        assert b[e] == a[e];
      }
    }
  }

  /** What the whole pass does: classes only grow, unmatched elements are untouched, every
      matched element ends up tagged, and no element is classified twice (so it gets one
      category and at most one delay bucket), even when several selectors match it. */
  lemma {:induction false} ApplyAllRefines(doc: seq<set<string>>, matches: seq<seq<nat>>, s: nat)
    requires s <= |matches| && InRange(matches, |doc|)
    ensures Refines(doc, ApplyAll(doc, matches, s), AllMembers(matches, s))
  {
    if s > 0 {
      ApplyAllRefines(doc, matches, s - 1);
      var d := ApplyAll(doc, matches, s - 1);
      var ms := matches[s - 1];
      assert forall i :: 0 <= i < |ms| ==> ms[i] < |doc| by {
        forall i | 0 <= i < |ms| ensures ms[i] < |doc| {
          assert matches[s - 1][i] < |doc|;
        }
      }
      ApplyListRefines(d, ms, |ms|);
      RefinesCompose(doc, d, ApplyAll(doc, matches, s), AllMembers(matches, s - 1), Members(ms, |ms|));
      assert AllMembers(matches, s) == AllMembers(matches, s - 1) + Members(ms, |ms|) by {
        forall x | x in AllMembers(matches, s) ensures x in AllMembers(matches, s - 1) + Members(ms, |ms|) {
          var t, i :| 0 <= t < s && 0 <= i < |matches[t]| && x == matches[t][i];
          if t == s - 1 {
            assert x in Members(ms, |ms|);
          }
        }
      }
    }
  }

  /** On a document where every matched element is tagged, a pass changes nothing. */
  lemma {:induction false} ApplyListTaggedNoop(doc: seq<set<string>>, ms: seq<nat>, n: nat)
    requires n <= |ms| && forall i :: 0 <= i < |ms| ==> ms[i] < |doc|
    requires forall i :: 0 <= i < |ms| ==> Tagged(doc[ms[i]])
    ensures ApplyList(doc, ms, n) == doc
  {
    if n > 0 {
      ApplyListTaggedNoop(doc, ms, n - 1);
    }
  }

  lemma {:induction false} ApplyAllTaggedNoop(doc: seq<set<string>>, matches: seq<seq<nat>>, s: nat)
    requires s <= |matches| && InRange(matches, |doc|)
    requires forall t, i :: 0 <= t < |matches| && 0 <= i < |matches[t]| ==> Tagged(doc[matches[t][i]])
    ensures ApplyAll(doc, matches, s) == doc
  {
    if s > 0 {
      ApplyAllTaggedNoop(doc, matches, s - 1);
      var ms := matches[s - 1];
      forall i | 0 <= i < |ms| ensures ms[i] < |doc| && Tagged(doc[ms[i]]) {
        assert matches[s - 1][i] < |doc|;
        assert Tagged(doc[matches[s - 1][i]]);
      }
      ApplyListTaggedNoop(doc, ms, |ms|);
    }
  }

  /** Running the pass again changes nothing. */
  lemma Idempotent(doc: seq<set<string>>, matches: seq<seq<nat>>)
    requires InRange(matches, |doc|)
    ensures var once := ApplyAll(doc, matches, |matches|);
      ApplyAll(once, matches, |matches|) == once
  {
    var once := ApplyAll(doc, matches, |matches|);
    ApplyAllRefines(doc, matches, |matches|);
    forall t, i | 0 <= t < |matches| && 0 <= i < |matches[t]|
      ensures Tagged(once[matches[t][i]])
    {
      assert matches[t][i] in AllMembers(matches, |matches|);
    }
    ApplyAllTaggedNoop(once, matches, |matches|);
  }

  /** The pass over the document, in place: `doc[e]` is element e's class list and
      `matches[s]` the elements selector s matches, in document order. */
  method AutoApplyReveals(doc: array<set<string>>, matches: seq<seq<nat>>)
    requires |matches| == |REVEAL_SELECTORS| && InRange(matches, doc.Length)
    modifies doc
    ensures doc[..] == ApplyAll(old(doc[..]), matches, |matches|)
  {
    ghost var original := doc[..];
    var s := 0;
    while s < |matches|
      invariant 0 <= s <= |matches|
      invariant doc[..] == ApplyAll(original, matches, s)
    {
      var ms := matches[s];
      assert forall i :: 0 <= i < |ms| ==> ms[i] < doc.Length by {
        forall i | 0 <= i < |ms| ensures ms[i] < doc.Length {
          assert matches[s][i] < doc.Length;
        }
      }
      ghost var start := doc[..];
      var i := 0;
      while i < |ms|
        invariant 0 <= i <= |ms|
        invariant doc[..] == ApplyList(start, ms, i)
      {
        ghost var before := doc[..];
        var el := ms[i];
        var classes := doc[el];
        if "reveal" in classes || "reveal-scale" in classes {
        } else if "method-card" in classes || "funnel-step" in classes
               || "guide-card" in classes || "faq-item" in classes {
          var delay := (i % 5) + 1;
          doc[el] := classes + {"reveal"} + {"reveal-delay-" + NatToDecimal(delay)};
          assert doc[el] == Classify(classes, i) by {
            assert "reveal-delay-" + NatToDecimal(delay) == DelayClass(i);
          }
        } else if "stats-showcase" in classes {
          doc[el] := classes + {"reveal-scale"};
        } else {
          doc[el] := classes + {"reveal"};
        }
        assert doc[..] == before[el := Classify(classes, i)];
        i := i + 1;
      }
      s := s + 1;
    }
  }
}
