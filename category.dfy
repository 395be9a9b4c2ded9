/**
 * Blog category filtering (`initCategoryFilter`): selecting a category link marks it
 * active, shows the cards of that category (or all of them for "all"), updates the
 * "N article(s)" count and mirrors the selection into the URL fragment; on load a fragment
 * selects the link whose slug it is.
 */
module CategoryFilter {
  import opened Wrappers
  import opened Text

  const ALL := "all"

  /** Whether a card of category `card` is displayed while `category` is selected. */
  predicate Shows(category: string, card: string) {
    category == ALL || card == category
  }

  /** "all" displays every card; any other category displays exactly its own cards. */
  lemma ShowsCases(category: string, card: string)
    ensures category == ALL ==> Shows(category, card)
    ensures category != ALL ==> (Shows(category, card) <==> card == category)
  {
  }

  /** How many of `cards` are displayed while `category` is selected. */
  function CountShown(cards: seq<string>, category: string): (n: nat)
    ensures n <= |cards|
    ensures category == ALL ==> n == |cards|
  {
    if cards == [] then 0
    else CountShown(cards[..|cards| - 1], category) + (if Shows(category, cards[|cards| - 1]) then 1 else 0)
  }

  /** The positions of the displayed cards. */
  ghost function ShownSet(cards: seq<string>, category: string): set<int> {
    set m | 0 <= m < |cards| && Shows(category, cards[m])
  }

  /** Adding a card adds its position exactly when it is displayed. */
  lemma ShownSetSnoc(cards: seq<string>, category: string)
    requires cards != []
    ensures var n := |cards| - 1;
      ShownSet(cards, category) == ShownSet(cards[..n], category) + (if Shows(category, cards[n]) then {n} else {})
      && n !in ShownSet(cards[..n], category)
  {
    var n := |cards| - 1;
    assert forall m :: 0 <= m < n ==> cards[..n][m] == cards[m];
  }

  /** The count is the number of displayed cards. */
  lemma {:induction false} CountShownIsCardinality(cards: seq<string>, category: string)
    ensures CountShown(cards, category) == |ShownSet(cards, category)|
  {
    if cards != [] {
      CountShownIsCardinality(cards[..|cards| - 1], category);
      ShownSetSnoc(cards, category);
    }
  }

  /** The `.post-count` text: the count, " article", and "s" unless the count is 1. */
  function Label(n: nat): (r: string)
    ensures var d := NatToDecimal(n);
      && |d| < |r| && r[..|d|] == d
      && (r[|d|..] == " article" || r[|d|..] == " articles")
      && (r[|d|..] == " article" <==> n == 1)
  {
    NatToDecimal(n) + " article" + (if n != 1 then "s" else "")
  }

  /** The label is plural exactly when the count is not one, and the count can be read
      back from the digits in front of it. */
  lemma LabelReadsBack(n: nat)
    ensures Label(n)[|Label(n)| - 1] == 's' <==> n != 1
    ensures var d := |NatToDecimal(n)|;
      d < |Label(n)| && Label(n)[d] == ' ' &&
      (forall i :: 0 <= i < d ==> IsDigit(Label(n)[i])) &&
      DecimalValue(Label(n)[..d]) == n
  {
    var s := NatToDecimal(n);
    assert Label(n)[..|s|] == s;
    DecimalRoundTrip(n);
  }

  /** Different counts give different labels. */
  lemma LabelInjective(m: nat, n: nat)
    requires Label(m) == Label(n)
    ensures m == n
  {
    LabelReadsBack(m);
    LabelReadsBack(n);
    var dm, dn := |NatToDecimal(m)|, |NatToDecimal(n)|;
    if dm != dn {
      assert false;
    }
  }

  /** The page address, split as the History API sees it. */
  datatype Url = Url(path: string, query: string, fragment: string)

  /** `history.replaceState`: "all" keeps only the path (dropping query and fragment);
      any other category writes "#" + its slug, keeping path and query. */
  function UrlAfter(u: Url, category: string): (r: Url)
    ensures r.path == u.path
    ensures category == ALL ==> r.query == "" && r.fragment == ""
    ensures category != ALL ==> r.query == u.query && r.fragment == Slug(category)
  {
    if category == ALL then Url(u.path, "", "") else u.(fragment := Slug(category))
  }

  /** Whether link category `cat` answers fragment `hash` on load: the category is
      present and non-empty, and its slug is the fragment. */
  predicate MatchesHash(cat: string, hash: string) {
    cat != "" && Slug(cat) == hash
  }

  /** Only a non-empty fragment that is already its own slug can be matched. */
  lemma MatchedHashIsSlug(cat: string, hash: string)
    requires MatchesHash(cat, hash)
    ensures hash != "" && Slug(hash) == hash
  {
    SlugNonEmpty(cat);
    SlugIdempotent(cat);
  }

  /** The link the restore step clicks for `hash`: the last whose category matches. */
  function LastMatch(links: seq<string>, hash: string): (r: Option<nat>)
    ensures r.Some? ==> r.value < |links| && MatchesHash(links[r.value], hash)
    ensures r.Some? ==> forall j :: r.value < j < |links| ==> !MatchesHash(links[j], hash)
    ensures r.None? ==> forall j :: 0 <= j < |links| ==> !MatchesHash(links[j], hash)
  {
    LastWhere(links, cat => MatchesHash(cat, hash))
  }

  /** The restore scan over the links, as the loop runs it. */
  method FindMatchingLink(links: seq<string>, hash: string) returns (found: Option<nat>)
    ensures found == LastMatch(links, hash)
  {
    found := None;
    var k := 0;
    while k < |links|
      invariant 0 <= k <= |links|
      invariant found == LastMatch(links[..k], hash)
    {
      assert links[..k + 1][..k] == links[..k];
      if MatchesHash(links[k], hash) {
        found := Some(k);
      }
      k := k + 1;
    }
    assert links[..k] == links;
  }

  /** Round trip: selecting a named category writes a non-empty fragment, and restoring
      from that fragment finds a link, at or after the selected one, with the same slug.
      When no two link categories share a slug, it is a link of the same category, so the
      restored page shows the same cards. */
  lemma FragmentRoundTrip(links: seq<string>, k: nat, u: Url)
    requires k < |links| && links[k] != ALL && links[k] != ""
    ensures var h := UrlAfter(u, links[k]).fragment;
      h != "" && LastMatch(links, h).Some? &&
      k <= LastMatch(links, h).value &&
      Slug(links[LastMatch(links, h).value]) == Slug(links[k])
    ensures (forall a, b :: 0 <= a < |links| && 0 <= b < |links| && Slug(links[a]) == Slug(links[b]) ==> links[a] == links[b])
      ==> links[LastMatch(links, Slug(links[k])).value] == links[k]
  {
    SlugNonEmpty(links[k]);
    assert MatchesHash(links[k], Slug(links[k]));
  }

  /** The category links and guide cards of a blog page. `links[j]` and `cards[m]` are
      their `data-category` values; `linkActive` and `cardShown` their `active` class and
      `display`; `postCount` the count text, when the page has a `.post-count`. */
  class Filter {
    const links: seq<string>
    const cards: seq<string>
    const hasPostCount: bool
    var linkActive: array<bool>
    var cardShown: array<bool>
    var postCount: string
    var url: Url

    ghost predicate Valid()
      reads this
    {
      linkActive.Length == |links| && cardShown.Length == |cards| && linkActive != cardShown
    }

    /** The page reflects the selection of link k. */
    ghost predicate Selected(k: nat)
      reads this, linkActive, cardShown
      requires Valid() && k < |links|
    {
      && (forall j :: 0 <= j < |links| ==> linkActive[j] == (j == k))
      && (forall m :: 0 <= m < |cards| ==> cardShown[m] == Shows(links[k], cards[m]))
    }

    constructor (categoryLinks: seq<string>, guideCards: seq<string>, withPostCount: bool,
                 initialActive: seq<bool>, initialShown: seq<bool>, initialCount: string, initialUrl: Url)
      requires |initialActive| == |categoryLinks| && |initialShown| == |guideCards|
      ensures Valid() && fresh(linkActive) && fresh(cardShown)
      ensures links == categoryLinks && cards == guideCards && hasPostCount == withPostCount
      ensures linkActive[..] == initialActive && cardShown[..] == initialShown
      ensures postCount == initialCount && url == initialUrl
    {
      links, cards, hasPostCount := categoryLinks, guideCards, withPostCount;
      var active := new bool[|initialActive|](j requires 0 <= j < |initialActive| => initialActive[j]);
      var shown := new bool[|initialShown|](m requires 0 <= m < |initialShown| => initialShown[m]);
      assert active[..] == initialActive;
      assert shown[..] == initialShown;
      linkActive, cardShown := active, shown;
      postCount, url := initialCount, initialUrl;
    }

    /** First half of the click handler: `active` moves to link k alone. */
    method ActivateOnly(k: nat)
      requires Valid() && k < |links|
      modifies linkActive
      ensures forall j :: 0 <= j < |links| ==> linkActive[j] == (j == k)
    {
      var j := 0;
      while j < linkActive.Length
        invariant 0 <= j <= linkActive.Length
        invariant forall i :: 0 <= i < j ==> !linkActive[i]
      {
        linkActive[j] := false;
        j := j + 1;
      }
      linkActive[k] := true;
    }

    /** Second half of the click handler: each card is shown or hidden for `category`,
        counting the ones shown. */
    method ShowCards(category: string) returns (visibleCount: nat)
      requires Valid()
      modifies cardShown
      ensures forall m :: 0 <= m < |cards| ==> cardShown[m] == Shows(category, cards[m])
      ensures visibleCount == CountShown(cards, category)
    {
      visibleCount := 0;
      var m := 0;
      while m < cardShown.Length
        invariant 0 <= m <= cardShown.Length
        invariant forall i :: 0 <= i < m ==> cardShown[i] == Shows(category, cards[i])
        invariant visibleCount == CountShown(cards[..m], category)
      {
        assert cards[..m + 1][..m] == cards[..m];
        if category == ALL || cards[m] == category {
          cardShown[m] := true;
          visibleCount := visibleCount + 1;
        } else {
          cardShown[m] := false;
        }
        m := m + 1;
      }
      assert cards[..m] == cards;
    }

    /** The click handler of link k; it is installed only on pages that have cards. */
    method Select(k: nat) returns (visibleCount: nat)
      requires Valid() && k < |links| && |cards| > 0
      modifies linkActive, cardShown, this`postCount, this`url
      ensures Valid() && Selected(k)
      ensures visibleCount == CountShown(cards, links[k])
      ensures postCount == if hasPostCount then Label(visibleCount) else old(postCount)
      ensures url == UrlAfter(old(url), links[k])
    {
      var category := links[k];
      ActivateOnly(k);
      visibleCount := ShowCards(category);

      if hasPostCount {
        if category == ALL {
          postCount := Label(|cards|);
        } else {
          postCount := Label(visibleCount);
        }
      }

      if category == ALL {
        url := Url(url.path, "", "");
      } else {
        url := url.(fragment := Slug(category));
      }
    }

    /** The restore step on load: on a page with cards, a non-empty fragment clicks the
        last link whose slug it is; otherwise nothing changes. */
    method Restore() returns (selected: Option<nat>)
      requires Valid()
      modifies linkActive, cardShown, this`postCount, this`url
      ensures Valid()
      ensures selected == (if old(url.fragment) == "" || |cards| == 0 then None else LastMatch(links, old(url.fragment)))
      ensures selected.Some? ==>
        && Selected(selected.value)
        && postCount == (if hasPostCount then Label(CountShown(cards, links[selected.value])) else old(postCount))
        && url == UrlAfter(old(url), links[selected.value])
      ensures selected.None? ==>
        && linkActive[..] == old(linkActive[..]) && cardShown[..] == old(cardShown[..])
        && postCount == old(postCount) && url == old(url)
    {
      selected := None;
      var hash := url.fragment;
      if hash != "" && |cards| > 0 {
        selected := FindMatchingLink(links, hash);
        if selected.Some? {
          var _ := Select(selected.value);
        }
      }
    }
  }
}
