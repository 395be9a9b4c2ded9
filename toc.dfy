/**
 * Table-of-contents generation (`generateTOC`): from the h2/h3 headings of the article,
 * give every heading without an id the id "section-<index>" and build one link per heading,
 * in document order, into either the dedicated `#table-of-contents` container or the
 * sidebar widget titled "In This Article".
 */
module Toc {
  import opened Wrappers
  import opened Text

  datatype Level = H2 | H3

  /** A heading element: its tag, its `id` ("" when it has none) and its text. */
  datatype Heading = Heading(level: Level, id: string, text: string)

  /** A list item: the link's `href`, its text, and whether it is indented as a
      sub-entry (class `toc-sub` in the container, a left padding in the sidebar). */
  datatype Entry = Entry(href: string, text: string, sub: bool)

  /** A `.sidebar-widget`: the text of its first h3, and the items of its first list
      (absent when it has no `ul`). */
  datatype Widget = Widget(title: Option<string>, list: Option<seq<Entry>>)

  /** What the generator did to the page. */
  datatype Outcome =
    | Unchanged
    | ContainerHidden
    | ContainerFilled(entries: seq<Entry>)
    | WidgetHidden(widget: nat)
    | WidgetFilled(widget: nat, entries: seq<Entry>)

  const CONTAINER_MINIMUM := 3
  const SIDEBAR_MINIMUM := 2
  const SIDEBAR_TITLE := "In This Article"

  /** The id generated for the heading at `index`: "section-" and the index in decimal. */
  function SectionId(index: nat): (id: string)
    ensures |id| > 8 && id[..8] == "section-"
    ensures forall k :: 8 <= k < |id| ==> IsDigit(id[k])
    ensures DecimalValue(id[8..]) == index
  {
    DecimalRoundTrip(index);
    assert ("section-" + NatToDecimal(index))[8..] == NatToDecimal(index);
    "section-" + NatToDecimal(index)
  }

  /** A heading without an id is given "section-" followed by its position; an existing
      id is kept. */
  function WithId(h: Heading, index: nat): (r: Heading)
    ensures r.level == h.level && r.text == h.text && r.id != ""
    ensures h.id != "" ==> r.id == h.id
  {
    if h.id == "" then h.(id := SectionId(index)) else h
  }

  function AssignIds(hs: seq<Heading>): (r: seq<Heading>)
    ensures |r| == |hs|
  {
    seq(|hs|, k requires 0 <= k < |hs| => WithId(hs[k], k))
  }

  function EntryFor(h: Heading): Entry {
    Entry("#" + h.id, h.text, h.level == H3)
  }

  function Entries(hs: seq<Heading>): (r: seq<Entry>)
    ensures |r| == |hs|
  {
    seq(|hs|, k requires 0 <= k < |hs| => EntryFor(hs[k]))
  }

  /** One entry per heading, in document order; each links to its heading's id, which is
      the heading's own id when it had one and "section-<index>" otherwise; H3 headings
      give sub-entries. */
  lemma EntriesMatchHeadings(hs: seq<Heading>, k: nat)
    requires k < |hs|
    ensures var e := Entries(AssignIds(hs))[k];
      && e.href == "#" + (if hs[k].id != "" then hs[k].id else SectionId(k))
      && e.text == hs[k].text
      && (e.sub <==> hs[k].level == H3)
      && |e.href| > 1
  {
  }

  /** Generating again on the same headings keeps every id. */
  lemma AssignIdsIdempotent(hs: seq<Heading>)
    ensures AssignIds(AssignIds(hs)) == AssignIds(hs)
  {
  }

  /** When the existing ids are distinct and none of them has the generated form, the
      ids after generation are all distinct, so every entry leads to a different heading. */
  lemma IdsDistinct(hs: seq<Heading>)
    requires forall a, b :: 0 <= a < b < |hs| && hs[a].id != "" ==> hs[a].id != hs[b].id
    requires forall a :: 0 <= a < |hs| ==> !("section-" <= hs[a].id)
    ensures forall a, b :: 0 <= a < b < |hs| ==> AssignIds(hs)[a].id != AssignIds(hs)[b].id
  {
    forall a, b | 0 <= a < b < |hs|
      ensures AssignIds(hs)[a].id != AssignIds(hs)[b].id
    {
      var ia, ib := AssignIds(hs)[a].id, AssignIds(hs)[b].id;
      if hs[a].id == "" && hs[b].id == "" {
        assert DecimalValue(ia[8..]) == a && DecimalValue(ib[8..]) == b;
      } else if hs[a].id == "" {
        assert "section-" <= ia;
      } else if hs[b].id == "" {
        assert "section-" <= ib;
      }
    }
  }

  /** A widget is the article's contents widget when it has an h3 whose text, with the
      surrounding whitespace removed, is the sidebar title. */
  predicate IsTocWidget(w: Widget)
    ensures IsTocWidget(w) ==> w.title.Some? && |w.title.value| >= |SIDEBAR_TITLE|
  {
    w.title.Some? && Trim(w.title.value) == SIDEBAR_TITLE
  }

  /** A title without surrounding whitespace picks the widget exactly when it is
      "In This Article" itself. */
  lemma UnpaddedTitle(w: Widget)
    requires w.title.Some? && w.title.value != []
    requires !IsSpace(w.title.value[0]) && !IsSpace(w.title.value[|w.title.value| - 1])
    ensures IsTocWidget(w) <==> w.title.value == SIDEBAR_TITLE
  {
    var t := w.title.value;
    assert DropSpaces(t) == t;
    assert DropSpacesAtEnd(t) == t;
  }

  /** The widget the sidebar scan picks: `forEach` keeps overwriting `tocWidget`, so the
      last widget titled "In This Article" wins. */
  function TocWidget(widgets: seq<Widget>): (r: Option<nat>)
    ensures r.Some? ==> r.value < |widgets| && IsTocWidget(widgets[r.value])
    ensures r.Some? ==> forall j :: r.value < j < |widgets| ==> !IsTocWidget(widgets[j])
    ensures r.None? ==> forall j :: 0 <= j < |widgets| ==> !IsTocWidget(widgets[j])
  {
    LastWhere(widgets, IsTocWidget)
  }

  /** The loop over the headings: assign missing ids in place and build the list. */
  method BuildList(headings: array<Heading>) returns (entries: seq<Entry>)
    modifies headings
    ensures headings[..] == AssignIds(old(headings[..]))
    ensures entries == Entries(headings[..])
  {
    ghost var original := headings[..];
    entries := [];
    var index := 0;
    while index < headings.Length
      invariant 0 <= index <= headings.Length
      invariant headings[..index] == AssignIds(original)[..index]
      invariant headings[index..] == original[index..]
      invariant entries == Entries(headings[..index])
    {
      var heading := headings[index];
      if heading.id == "" {
        heading := heading.(id := "section-" + NatToDecimal(index));
        headings[index] := heading;
      }
      entries := entries + [Entry("#" + heading.id, heading.text, heading.level == H3)];
      assert headings[..index + 1] == headings[..index] + [heading];
      assert original[index..][0] == original[index];
      index := index + 1;
    }
    assert headings[..] == headings[..index];
    assert AssignIds(original) == AssignIds(original)[..index];
  }

  /** The heading array of an element, as a set to name in a `modifies` clause. */
  function HeadingArrays(a: Option<array<Heading>>): set<array<Heading>> {
    if a.Some? then {a.value} else {}
  }

  /** The article whose headings the dedicated container lists: `.article-content`, or
      else `main`. */
  function ContainerSource(articleContent: Option<array<Heading>>, main: Option<array<Heading>>): Option<array<Heading>> {
    if articleContent.Some? then articleContent else main
  }

  /** The whole generator. `articleContent` and `main` are the headings of those elements
      when the page has them. */
  method GenerateToc(hasContainer: bool, articleContent: Option<array<Heading>>,
                     main: Option<array<Heading>>, widgets: seq<Widget>) returns (outcome: Outcome)
    modifies HeadingArrays(articleContent), HeadingArrays(main)
    ensures hasContainer ==>
      var source := ContainerSource(articleContent, main);
      && (source.None? ==> outcome == Unchanged)
      && (source.Some? && source.value.Length < CONTAINER_MINIMUM ==> outcome == ContainerHidden)
      && (source.Some? && source.value.Length >= CONTAINER_MINIMUM ==>
            && source.value[..] == AssignIds(old(source.value[..]))
            && outcome == ContainerFilled(Entries(source.value[..])))
    ensures !hasContainer ==>
      var w := TocWidget(widgets);
      && (w.None? || widgets[w.value].list != Some([]) || articleContent.None? ==> outcome == Unchanged)
      && (w.Some? && widgets[w.value].list == Some([]) && articleContent.Some? ==>
            if articleContent.value.Length < SIDEBAR_MINIMUM then outcome == WidgetHidden(w.value)
            else
              && articleContent.value[..] == AssignIds(old(articleContent.value[..]))
              && outcome == WidgetFilled(w.value, Entries(articleContent.value[..])))
    ensures outcome.Unchanged? || outcome.ContainerHidden? || outcome.WidgetHidden? ==>
      forall a :: a in HeadingArrays(articleContent) + HeadingArrays(main) ==> a[..] == old(a[..])
    ensures outcome.ContainerFilled? ==>
      forall a :: a in HeadingArrays(articleContent) + HeadingArrays(main) && Some(a) != ContainerSource(articleContent, main) ==>
        a[..] == old(a[..])
    ensures outcome.WidgetFilled? ==>
      forall a :: a in HeadingArrays(articleContent) + HeadingArrays(main) && Some(a) != articleContent ==>
        a[..] == old(a[..])
    ensures outcome.ContainerFilled? || outcome.WidgetFilled? ==>
      |outcome.entries| >= SIDEBAR_MINIMUM
  {
    if hasContainer {
      var article := if articleContent.Some? then articleContent else main;
      if article.None? {
        return Unchanged;
      }
      var headings := article.value;
      if headings.Length < CONTAINER_MINIMUM {
        return ContainerHidden;
      }
      var entries := BuildList(headings);
      return ContainerFilled(entries);
    }

    var found := TocWidget(widgets);
    if found.None? {
      return Unchanged;
    }
    var list := widgets[found.value].list;
    if list.None? || |list.value| > 0 {
      return Unchanged;
    }
    if articleContent.None? {
      return Unchanged;
    }
    var headings := articleContent.value;
    if headings.Length < SIDEBAR_MINIMUM {
      return WidgetHidden(found.value);
    }
    var entries := BuildList(headings);
    return WidgetFilled(found.value, entries);
  }
}
