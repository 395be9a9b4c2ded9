/**
 * Navigation highlighting (`highlightCurrentPage`): a main-navigation link is marked
 * active when its normalised `href` equals the normalised current path, or is a non-root
 * prefix of it.
 */
module NavHighlight {
  import opened Wrappers

  predicate EndsWith(s: string, suffix: string) {
    |suffix| <= |s| && s[|s| - |suffix|..] == suffix
  }

  /** The first rewrite of the path: a final "index.html", together with the slash in
      front of it if there is one, becomes a single slash; the text before it is kept. */
  function ReplaceIndex(p: string): (r: string)
    ensures EndsWith(p, "index.html") ==> r != [] && r[|r| - 1] == '/'
    ensures EndsWith(p, "/index.html") ==> r[..|r| - 1] + "/index.html" == p
    ensures EndsWith(p, "index.html") && !EndsWith(p, "/index.html") ==> r[..|r| - 1] + "index.html" == p
    ensures !EndsWith(p, "index.html") ==> r == p
  {
    if EndsWith(p, "/index.html") then p[..|p| - 11] + "/"
    else if EndsWith(p, "index.html") then p[..|p| - 10] + "/"
    else p
  }

  /** The second rewrite: one final slash is dropped, and nothing else changes. */
  function StripSlash(p: string): (r: string)
    ensures r == p || r + "/" == p
    ensures r == p <==> p == [] || p[|p| - 1] != '/'
  {
    if p != [] && p[|p| - 1] == '/' then p[..|p| - 1] else p
  }

  /** The normalised path; an empty result stands for the root, "/". */
  function Normalize(p: string): (r: string)
    ensures r != ""
    ensures r == "/" || (|r| <= |p| && r == p[..|r|])
  {
    var s := StripSlash(ReplaceIndex(p));
    if s == "" then "/" else s
  }

  /** A path without a final slash or "index.html" is its own normal form. */
  lemma {:induction false} NormalizeKeeps(p: string)
    requires p != [] && p[|p| - 1] != '/'
    requires !EndsWith(p, "index.html")
    ensures Normalize(p) == p
  {
    assert ReplaceIndex(p) == p;
    assert StripSlash(p) == p;
  }

  /** Every spelling of the root normalises to "/". */
  lemma RootForms()
    ensures Normalize("") == "/" && Normalize("/") == "/"
    ensures Normalize("index.html") == "/" && Normalize("/index.html") == "/"
  {
    assert EndsWith("/index.html", "/index.html");
    assert EndsWith("index.html", "index.html") && !EndsWith("index.html", "/index.html");
  }

  /** A page's directory form, its "/" form, its "/index.html" form and its bare
      "index.html" form all normalise alike. */
  lemma {:induction false} EquivalentForms(p: string)
    requires p == [] || p[|p| - 1] != '/'
    requires !EndsWith(p, "index.html")
    ensures Normalize(p + "/") == Normalize(p)
    ensures Normalize(p + "/index.html") == Normalize(p)
    ensures Normalize(p + "index.html") == Normalize(p)
  {
    var q := p + "/index.html";
    assert q[|q| - 11..] == "/index.html";
    assert q[..|q| - 11] == p;
    var d := p + "/";
    assert d[|d| - 1] == '/' && d[..|d| - 1] == p;
    var b := p + "index.html";
    assert b[|b| - 10..] == "index.html";
    assert b[..|b| - 10] == p;
    if p != [] {
      assert b[|b| - 11] == p[|p| - 1] != '/';
    }
    assert !EndsWith(b, "/index.html");
  }

  /** The link test: the normalised link is the normalised page, or it is a proper path
      (neither empty nor the root) that the normalised page begins with. */
  predicate IsCurrent(currentPath: string, href: string)
    ensures IsCurrent(currentPath, href) <==>
      Normalize(href) <= Normalize(currentPath) && (Normalize(href) == "/" ==> Normalize(currentPath) == "/")
  {
    var norm := Normalize(currentPath);
    var linkNorm := Normalize(href);
    norm == linkNorm || (linkNorm != "" && linkNorm != "/" && linkNorm <= norm)
  }

  /** A link to the root is marked only on the root page; any other link is marked on its
      own page and on every page whose normalised path it begins. */
  lemma IsCurrentCases(currentPath: string, href: string)
    ensures IsCurrent(href, href)
    ensures Normalize(href) == "/" ==> (IsCurrent(currentPath, href) <==> Normalize(currentPath) == "/")
    ensures Normalize(href) != "/" ==> (IsCurrent(currentPath, href) <==> Normalize(href) <= Normalize(currentPath))
  {
  }

  /** Whether a link with `href` attribute `href` gets the `active` class on the page at
      `currentPath`; links whose `href` is absent or empty are skipped. */
  predicate Marks(currentPath: string, href: Option<string>)
    ensures Marks(currentPath, href) ==> href.Some? && Normalize(href.value) <= Normalize(currentPath)
    ensures href.Some? && href.value != "" && Normalize(href.value) == Normalize(currentPath) ==> Marks(currentPath, href)
  {
    href.Some? && href.value != "" && IsCurrent(currentPath, href.value)
  }

  /** The callback the `forEach` runs for one link: whether it adds `active`. */
  method LinkCallback(currentPath: string, href: Option<string>) returns (mark: bool)
    ensures mark == Marks(currentPath, href)
  {
    if href.None? || href.value == "" {
      return false;
    }
    var norm := Normalize(currentPath);
    var linkNorm := Normalize(href.value);
    mark := norm == linkNorm || (linkNorm != "" && linkNorm != "/" && linkNorm <= norm);
  }

  /** The `forEach` over the navigation links: `hrefs[i]` is link i's `href` attribute and
      `active[i]` its `active` class, which this only ever adds. */
  method HighlightCurrentPage(currentPath: string, hrefs: seq<Option<string>>, active: array<bool>)
    requires |hrefs| == active.Length
    modifies active
    ensures forall i :: 0 <= i < active.Length ==>
      active[i] == (old(active[i]) || Marks(currentPath, hrefs[i]))
  {
    var i := 0;
    while i < active.Length
      invariant 0 <= i <= active.Length
      invariant forall j :: 0 <= j < active.Length ==>
        active[j] == (old(active[j]) || (j < i && Marks(currentPath, hrefs[j])))
    {
      var mark := LinkCallback(currentPath, hrefs[i]);
      if mark {
        active[i] := true;
      }
      i := i + 1;
    }
  }
}
