# Site script behaviours, modelled in Dafny

This project models the decision rules and small state machines of the site script
`assets/js/main.js`. These are the parts that decide what the page shows:

- the FAQ accordion;
- the blog category filter: selection, visible count, "N article(s)" label, URL fragment and restore on load;
- the smart header and the `ticking` guard around `requestAnimationFrame`;
- the reading-progress percentage;
- the dark-mode preference and its toggle button;
- the automatic reveal classes;
- the table-of-contents generator;
- the navigation highlighting and its path normalisation;
- the mobile navigation toggle.

The DOM is abstracted to plain state:

- an element's class list is a `set<string>`;
- a collection returned by `querySelectorAll` is an array or a sequence in document order;
- an attribute is a field;
- local storage is a `map<string, string>`;
- the page address is a record `Url(path, query, fragment)`.

Where the script changes elements one by one in a loop (the accordion, the category click handler, the reveal pass, the heading ids), the model is a method over arrays. Its loop invariants tie the result to a specification function, and lemmas prove the promised properties of that function. The pure rules are functions with lemmas:

- the slug;
- the label;
- the path normalisation;
- the progress formula;
- the theme parse.

Modules, one per file:

| file | module | behaviour |
|---|---|---|
| `wrappers.dfy` | `Wrappers` | `Option`, and `LastWhere`: the last match of a `forEach` that keeps overwriting a variable |
| `text.dfy` | `Text` | JavaScript `\s`, ASCII lower-casing, the category slug, `trim`, decimal rendering |
| `throttle.dfy` | `Throttle` | the `ticking` guard shared by both scroll listeners |
| `header.dfy` | `SmartHeader` | `updateHeader` and its listener |
| `progress.dfy` | `ReadingProgress` | `updateProgress` and its listener |
| `faq.dfy` | `FaqAccordion` | `initFaqAccordion` / `toggleFaq` |
| `category.dfy` | `CategoryFilter` | `initCategoryFilter` |
| `theme.dfy` | `Theme` | `initDarkMode` |
| `reveal.dfy` | `AutoReveal` | `autoApplyReveals` |
| `toc.dfy` | `Toc` | `generateTOC` |
| `nav.dfy` | `NavHighlight` | `highlightCurrentPage` |
| `mobilenav.dfy` | `MobileNav` | `initMobileNav` |

Facts about the code that the model keeps as they are:

- **Path normalisation.** A final `/index.html` or `index.html` is *replaced* by `/`, and then one final `/` is dropped. So `/foo//index.html` normalises to `/foo/`, not to `/foo`.
- **Selecting "all".** The address becomes `location.pathname` alone, so the query string is dropped along with the fragment.
- **Progress values.** For an article at 1000px, 4000px high, in an 800px window, `updateProgress` gives 50% at offset 2600 and 40% at offset 2280 (`ReadingProgress.WorkedExample`).

## Model

| member | source | states |
|---|---|---|
| Wrappers.LastWhere | assets/js/main.js:444-448 | the result is the index of an element satisfying the test, with no later element satisfying it; None exactly when no element does |
| Text.Lower | assets/js/main.js:437 | the result is never an upper-case ASCII letter; upper-case letters map to their lower-case partners, every other character to itself; whitespace stays whitespace |
| Text.DropSpaces | assets/js/main.js:437 | the result is a suffix of the input that does not start with whitespace, and everything dropped is whitespace |
| Text.Slug | assets/js/main.js:437 | the slug is never longer than the category, and empty exactly when the category is |
| Text.SlugShape | assets/js/main.js:437 | a slug contains no whitespace and no upper-case letter and is no longer than the category |
| Text.SlugNonEmpty | assets/js/main.js:437 | a non-empty category has a non-empty slug |
| Text.SlugOfSpaceless | assets/js/main.js:437 | without whitespace the slug is the character-wise lower-casing |
| Text.SlugAppendSpaceless | assets/js/main.js:437 | a whitespace-free prefix slugs independently of what follows |
| Text.SlugOfRun | assets/js/main.js:437 | a whitespace run of any length before a word becomes exactly one hyphen |
| Text.SlugOfTwoWords | assets/js/main.js:437 | "A B" slugs to slug(A) + "-" + slug(B) |
| Text.SlugIdempotent | assets/js/main.js:447 | a slug is its own slug, so a written fragment compares equal to the slug of its category |
| Text.Trim | assets/js/main.js:301 | the result is the input's slice between a whitespace-only prefix and a whitespace-only suffix, and neither of its ends is whitespace |
| Text.NatToDecimal | assets/js/main.js:428-430 | a count renders as a non-empty string of digits without a leading zero |
| Text.DecimalRoundTrip | assets/js/main.js:428-430 | reading the rendered digits back gives the count |
| Text.DecimalInjective | assets/js/main.js:282 | different indices render differently |
| Throttle.Scroll | assets/js/main.js:101-106 | from a valid gate a scroll leaves exactly one callback pending; while ticking it changes nothing |
| Throttle.Frame | assets/js/main.js:97-98 | a frame leaves nothing pending; from a valid gate it runs at most one update, exactly one when `ticking` was set, and leaves the gate idle |
| Throttle.Run | assets/js/main.js:97-106 | over a trace of scrolls and frames, the updates run plus the callbacks still pending are at most those pending at the start plus the number of events |
| Throttle.RunCoalesces | assets/js/main.js:101-106 | over any trace of scrolls and frames the gate stays valid and the updates number at most the frames and at most the scrolls plus the callback pending at the start |
| Throttle.ScrollThenFrameUpdatesOnce | assets/js/main.js:101-106 | a scroll followed by a frame runs exactly one update and leaves the gate idle, whatever the state |
| SmartHeader.Decide | assets/js/main.js:85-95 | scrolled iff the offset exceeds 80; hidden iff the offset grew and exceeds 200; hidden implies scrolled |
| SmartHeader.Trace | assets/js/main.js:82-99 | one view per update |
| SmartHeader.TraceAt | assets/js/main.js:82-99 | update k of a trace decides from the previous offset (the initial one for the first) and its own offset |
| SmartHeader.UpwardScrollShows | assets/js/main.js:91-95 | at every update of any trace, an offset that is not further down than the previous one shows the header, and an offset of 200 or less shows it |
| SmartHeader.Header.constructor | assets/js/main.js:79-80 | the listener starts with the current offset, no update pending, and the header without either class |
| SmartHeader.Header.OnScroll | assets/js/main.js:101-106 | the scroll listener queues one update unless one is pending, keeping the gate valid, and changes nothing else |
| SmartHeader.Header.UpdateHeader | assets/js/main.js:82-99 | the classes become Decide(previous offset, y), `lastScrollY` becomes y and `ticking` is cleared |
| SmartHeader.Header.OnFrame | assets/js/main.js:82-106 | a frame runs the pending update (and only then changes the classes and `lastScrollY`), leaving the gate idle and the state valid |
| ReadingProgress.Progress | assets/js/main.js:347-354 | the percentage lies in [0, 100]; it is 100 when the article fits (end <= start), 0 at or above the start and 100 at or below the end |
| ReadingProgress.ProgressAt | assets/js/main.js:341-354 | in [0, 100], and 100 whenever the article is no taller than the window |
| ReadingProgress.Monotone | assets/js/main.js:351-354 | scrolling further down never lowers the percentage |
| ReadingProgress.Proportional | assets/js/main.js:354 | strictly between start and end the percentage is strictly between 0 and 100 and gives back the offset |
| ReadingProgress.WorkedExample | assets/js/main.js:347-354 | for an article at 1000px, 4000px high, in an 800px window: 0% at 1000, 40% at 2280, 50% at 2600, 100% at 4200 |
| ReadingProgress.Bar.constructor | assets/js/main.js:338-367 | installing the bar computes it once, eagerly, with nothing pending |
| ReadingProgress.Bar.OnScroll | assets/js/main.js:360-365 | a scroll queues at most one update and leaves the width alone |
| ReadingProgress.Bar.OnFrame | assets/js/main.js:340-358 | a frame recomputes the width from the current layout exactly when an update was pending, and leaves the gate idle |
| FaqAccordion.Accordion.constructor | assets/js/main.js:196-203 | every item with both a question and an answer starts with `aria-expanded` false; other items and all `active` classes are as in the markup |
| FaqAccordion.Accordion.Toggle | assets/js/main.js:205-216 | every other item becomes inactive and its question (if any) not expanded; item i's `active` flips and its `aria-expanded` equals it; questionless items keep theirs; afterwards at most one item is open and every question reports its item |
| FaqAccordion.Accordion.OnKeyDown | assets/js/main.js:219-224 | Enter and Space act as a click: every other item becomes inactive and its question (if any) not expanded, questionless items keep theirs, item i's `active` flips, at most one item is open and every question reports its item; any other key changes nothing |
| CategoryFilter.ShowsCases | assets/js/main.js:418 | "all" displays every card; any other category displays exactly the cards of that category |
| CategoryFilter.CountShown | assets/js/main.js:416-424 | the count is at most the number of cards, and all of them for "all" |
| CategoryFilter.CountShownIsCardinality | assets/js/main.js:416-424 | the count equals the number of cards whose category matches or, for "all", of all cards |
| CategoryFilter.Label | assets/js/main.js:428-430 | the label is the count's digits followed by " article" or " articles", singular exactly when the count is 1 |
| CategoryFilter.LabelReadsBack | assets/js/main.js:426-432 | the label ends in "s" iff the count is not 1, and its leading digits, up to a space, read back as the count |
| CategoryFilter.LabelInjective | assets/js/main.js:426-432 | different counts give different labels |
| CategoryFilter.UrlAfter | assets/js/main.js:434-438 | "all" keeps only the path; any other category keeps path and query and writes its slug as the fragment |
| CategoryFilter.MatchedHashIsSlug | assets/js/main.js:447 | only a non-empty fragment that is its own slug can match a link category |
| CategoryFilter.LastMatch | assets/js/main.js:442-448 | the index of a link whose non-empty category slugs to the hash, with no later such link; None exactly when no link matches |
| CategoryFilter.FindMatchingLink | assets/js/main.js:442-448 | the result is the last link whose non-empty category slugs to the hash, or None when no link does |
| CategoryFilter.FragmentRoundTrip | assets/js/main.js:434-450 | selecting a named category writes a non-empty fragment from which restore finds a link at or after it with the same slug; with slugs unique per category it is a link of the same category |
| CategoryFilter.Filter.constructor | assets/js/main.js:399-406 | the filter holds the page's links, cards, classes, count text and address as given |
| CategoryFilter.Filter.ActivateOnly | assets/js/main.js:413-414 | exactly the clicked link is active afterwards |
| CategoryFilter.Filter.ShowCards | assets/js/main.js:416-424 | card m is shown iff it matches the category, and the returned count is CountShown |
| CategoryFilter.Filter.Select | assets/js/main.js:409-439 | exactly link k is active, card m is shown iff it matches, the count text (when present) is the label of the visible count, and the address is UrlAfter |
| CategoryFilter.Filter.Restore | assets/js/main.js:442-450 | on a page with cards, a non-empty fragment selects LastMatch, with all of Select's effects; otherwise the page is unchanged |
| Theme.Lookup | assets/js/main.js:543 | no value exactly when the key is not stored, and otherwise the stored value |
| Theme.Parse | assets/js/main.js:543-544 | the theme is dark or light, dark exactly when "dark" is stored, and light when "light" is stored |
| Theme.Next | assets/js/main.js:558 | the next theme is dark or light, and dark exactly when the current one is not dark |
| Theme.IconFor | assets/js/main.js:554 | the sun exactly for the dark theme, and the moon for any other theme |
| Theme.ToggleTwice | assets/js/main.js:558 | two clicks restore the theme and one click always changes it |
| Theme.PersistedThemeReloads | assets/js/main.js:543-560 | the value a click stores is the theme the next load applies |
| Theme.Toggle.constructor | assets/js/main.js:543-554 | the stored preference is applied, and the button (present only with a header) shows the icon of that theme |
| Theme.Toggle.Click | assets/js/main.js:556-562 | the theme flips and is persisted under "ogw-theme", the icon follows it, and storage and page stay in agreement |
| AutoReveal.DelayClass | assets/js/main.js:61-62 | the class is "reveal-delay-d" with d = index mod 5 + 1, a single digit from 1 to 5 |
| AutoReveal.DelaysStagger | assets/js/main.js:61-62 | any five consecutive indices get five different delays |
| AutoReveal.Classify | assets/js/main.js:54-67 | a tagged element is unchanged; otherwise it gains exactly one of `reveal` and `reveal-scale` (`reveal-scale` only for a stats showcase that is not a card); a card gains `reveal` and its delay and nothing else; any other element gains only its one class and no delay |
| AutoReveal.ApplyList | assets/js/main.js:53-68 | one selector's turn keeps the document's length |
| AutoReveal.ApplyAll | assets/js/main.js:52-69 | the whole pass keeps the document's length |
| AutoReveal.ApplyListRefines | assets/js/main.js:53-68 | one selector's turn only adds classes, leaves unmatched elements alone, tags every matched element, and classifies each at most once |
| AutoReveal.ApplyAllRefines | assets/js/main.js:52-69 | the same for the whole pass, even when several selectors match one element |
| AutoReveal.ApplyListPositions | assets/js/main.js:53-68 | an element first matched at position i of a selector's list ends that turn as Classify of its classes with index i, so its delay bucket is that position's |
| AutoReveal.ApplyListTaggedNoop | assets/js/main.js:54 | a selector whose matches are all tagged changes nothing |
| AutoReveal.ApplyAllTaggedNoop | assets/js/main.js:54 | a pass over fully tagged matches changes nothing |
| AutoReveal.Idempotent | assets/js/main.js:52-69 | running the pass again changes nothing |
| AutoReveal.AutoApplyReveals | assets/js/main.js:52-69 | the in-place nested loops leave the document as ApplyAll of the original |
| Toc.WithId | assets/js/main.js:282 | a heading keeps its level, text and existing id, and ends up with a non-empty id |
| Toc.SectionId | assets/js/main.js:282 | the generated id is "section-" followed by one or more digits that read back as the index |
| Toc.AssignIds | assets/js/main.js:281-282 | one heading out per heading in |
| Toc.Entries | assets/js/main.js:283-289 | one entry per heading |
| Toc.EntriesMatchHeadings | assets/js/main.js:281-290 | entry k links to "#" + heading k's id, or "section-k" when it had none, carries its text, and is a sub-entry iff the heading is an H3 |
| Toc.AssignIdsIdempotent | assets/js/main.js:282 | generating again keeps every id |
| Toc.IdsDistinct | assets/js/main.js:282 | with distinct existing ids not of the generated form, all ids after generation are distinct |
| Toc.BuildList | assets/js/main.js:281-290 | the loop leaves the headings as AssignIds of the originals and returns their entries |
| Toc.IsTocWidget | assets/js/main.js:301 | a picked widget has a title at least as long as "In This Article" |
| Toc.UnpaddedTitle | assets/js/main.js:301 | a title without surrounding whitespace picks the widget exactly when it is "In This Article" |
| Toc.TocWidget | assets/js/main.js:298-303 | the index of a widget whose trimmed h3 title is "In This Article", with no later such widget; None exactly when there is none |
| Toc.GenerateToc | assets/js/main.js:269-323 | with a container: nothing without an article, hidden below 3 headings, otherwise filled; without one: the last "In This Article" widget with an empty list is hidden below 2 headings of `.article-content` and otherwise filled; a fill changes only the chosen article's headings, and in every other case nothing changes |
| NavHighlight.ReplaceIndex | assets/js/main.js:165 | a path ending in "/index.html" or "index.html" has that ending replaced by one "/", keeping the text before it; any other path is unchanged |
| NavHighlight.StripSlash | assets/js/main.js:165 | exactly one final "/" is dropped when there is one; otherwise the path is unchanged |
| NavHighlight.Normalize | assets/js/main.js:165-166 | the normalised path is never empty, and is either "/" or a prefix of the path |
| NavHighlight.NormalizeKeeps | assets/js/main.js:165-166 | a path not ending in "/" or "index.html" is its own normal form |
| NavHighlight.RootForms | assets/js/main.js:165-166 | "", "/", "index.html" and "/index.html" all normalise to "/" |
| NavHighlight.EquivalentForms | assets/js/main.js:165-166 | "p", "p/", "p/index.html" and "pindex.html" normalise alike |
| NavHighlight.IsCurrent | assets/js/main.js:168-169 | the link is current exactly when its normalised path begins the page's, and a link to the root is current only on the root |
| NavHighlight.IsCurrentCases | assets/js/main.js:168-169 | a link to the root is current only on the root; any other link is current exactly on the pages whose normalised path it begins; a link is current on its own page |
| NavHighlight.Marks | assets/js/main.js:162-170 | a marked link has an href whose normal form begins the page's; every present, non-empty link to the page itself is marked |
| NavHighlight.LinkCallback | assets/js/main.js:162-170 | one link's callback marks it iff its href is present, non-empty and current |
| NavHighlight.HighlightCurrentPage | assets/js/main.js:157-172 | each link gains `active` exactly when its callback marks it; other links keep their class |
| MobileNav.ClickToggle | assets/js/main.js:117-120 | the button flips the menu and sets `aria-expanded` to match |
| MobileNav.OutsideClickAsWritten | assets/js/main.js:123-126 | an outside click closes the menu and leaves `aria-expanded` as it was; other clicks change nothing |
| MobileNav.ClickAsWritten | assets/js/main.js:117-126 | a click on the toggle flips the menu and syncs the button; one inside the menu changes nothing; one elsewhere closes the menu and leaves `aria-expanded` as it was |
| MobileNav.OutsideClickDesyncs | assets/js/main.js:117-126 | opening the menu and clicking elsewhere leaves the menu closed with `aria-expanded` still true |
| MobileNav.OutsideClick | assets/js/main.js:123-126 | the corrected outside click closes the menu and resets `aria-expanded` |
| MobileNav.Click | assets/js/main.js:117-126 | with the corrected handler, the toggle flips the menu, a click inside changes nothing, and a click elsewhere closes the menu; toggle and outside clicks leave the button in step |
| MobileNav.Run | assets/js/main.js:117-126 | under the corrected handler, whenever the last click is not inside the menu the button ends in step with the menu |
| MobileNav.ClicksKeepSync | assets/js/main.js:117-126 | with the corrected handler, any sequence of clicks keeps `aria-expanded` equal to the menu's state |

## Left out

- The IntersectionObserver reveal trigger and the `matchMedia` reduced-motion check (assets/js/main.js:9-28): browser callbacks. Only the class assignment that prepares them is modelled.
- The scheduling of `requestAnimationFrame` itself: a queued callback is a pending count in `Throttle.Gate`, and a frame is an explicit event.
- Hero particles, smooth scrolling, the share buttons, the clipboard and native share, the last-updated date, the newsletter form, the card tilt and affiliate tracking: DOM effects, foreign APIs, timers, network I/O, locale-dependent dates and floating-point geometry.
- `localStorage`, `history.replaceState` and `location` as real APIs: they are fields of the model.
- Text.Lower: `toLowerCase` is modelled on the ASCII letters only. Other cased letters of a category name keep their case.
- CategoryFilter.Filter.Restore: `location.hash` is percent-encoded by the browser. The model reads back the fragment exactly as written, so a category whose slug contains characters needing escape restores here but may not in a browser.
- FaqAccordion.Accordion.constructor: an `aria-expanded` attribute that is absent is modelled as false.
- SmartHeader.Header.constructor: the header is assumed to start without `header-scrolled` and `header-hidden`. The script does not set them at install time.
- ReadingProgress.Progress: lengths are exact reals, not IEEE doubles. The CSS `width` string is not modelled.
- SmartHeader.Decide: scroll offsets are exact reals, not IEEE doubles, so rounding in the comparisons with 80 and 200 is not modelled.
- MobileNav: the two flags are modelled as values, not as a class over the DOM. The containment tests (`contains(e.target)`) are reduced to where the click lands.
- The early returns when an element is missing (`.site-header`, `.main-nav`, `.article-content` for the bar): the model assumes the element exists. The missing-element paths of the category filter and the table of contents are modelled.

## Findings

| source | as written | input that shows it | evidently intended | confidence | as-written member | corrected member |
|---|---|---|---|---|---|---|
| assets/js/main.js:123-126 | the outside-click handler removes `open` from the menu but does not touch the toggle's `aria-expanded` | click the toggle (menu opens, `aria-expanded` true), then click elsewhere on the page: the menu closes and `aria-expanded` stays "true" | the outside click also sets `aria-expanded` to false, so the button always announces the menu's state | medium, not executed | MobileNav.OutsideClickDesyncs | MobileNav.ClicksKeepSync |
