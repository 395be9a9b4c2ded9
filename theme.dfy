/**
 * The dark-mode toggle (`initDarkMode`): the stored preference is read once and applied as
 * the root's `data-theme`; a button in the header flips it, persists it and shows the icon
 * of the current theme.
 */
module Theme {
  import opened Wrappers

  const STORAGE_KEY := "ogw-theme"
  const DARK := "dark"
  const LIGHT := "light"
  /** The button shows a sun while the page is dark and a crescent moon otherwise. */
  const SUN_ICON := "\U{2600}\U{FE0F}"
  const MOON_ICON := "\U{1F319}"

  /** The stored value as a theme: "dark" and "light" are kept, anything else (or nothing)
      is "light". */
  function Parse(stored: Option<string>): (theme: string)
    ensures theme == DARK || theme == LIGHT
    ensures theme == DARK <==> stored == Some(DARK)
    ensures stored == Some(LIGHT) ==> theme == LIGHT
  {
    if stored == Some(DARK) || stored == Some(LIGHT) then stored.value else LIGHT
  }

  /** The click handler's choice: dark becomes light, anything else becomes dark. */
  function Next(current: string): (next: string)
    ensures next == DARK || next == LIGHT
    ensures next == DARK <==> current != DARK
  {
    if current == DARK then LIGHT else DARK
  }

  /** The toggle's icon: the sun while dark, the moon otherwise. */
  function IconFor(theme: string): (icon: string)
    ensures icon == SUN_ICON <==> theme == DARK
    ensures theme != DARK ==> icon == MOON_ICON
  {
    if theme == DARK then SUN_ICON else MOON_ICON
  }

  /** `getItem`: the stored value, or nothing when the key was never set. */
  function Lookup(storage: map<string, string>, key: string): (r: Option<string>)
    ensures r.None? <==> key !in storage
    ensures r.Some? ==> r.value == storage[key]
  {
    if key in storage then Some(storage[key]) else None
  }

  /** Toggling twice restores a theme, and toggling always changes it. */
  lemma ToggleTwice(theme: string)
    requires theme == DARK || theme == LIGHT
    ensures Next(Next(theme)) == theme
    ensures Next(theme) != theme
  {
  }

  /** What a toggle persists is what the next page load applies. */
  lemma PersistedThemeReloads(storage: map<string, string>, current: string)
    ensures Parse(Lookup(storage[STORAGE_KEY := Next(current)], STORAGE_KEY)) == Next(current)
  {
  }

  /** The page's theme state: the browser's local storage, the root's `data-theme`, and the
      toggle button's icon (absent when the page has no `.header-inner` to hold it). */
  class Toggle {
    var storage: map<string, string>
    var dataTheme: string
    var icon: Option<string>

    /** The applied theme is a valid one, it is what a reload would apply from storage,
        and the icon matches it. */
    ghost predicate Valid()
      reads this
    {
      && (dataTheme == DARK || dataTheme == LIGHT)
      && Parse(Lookup(storage, STORAGE_KEY)) == dataTheme
      && (icon.Some? ==> icon.value == IconFor(dataTheme))
    }

    /** Page load: apply the stored preference; add the button when there is a header. */
    constructor (initialStorage: map<string, string>, hasHeader: bool)
      ensures Valid()
      ensures storage == initialStorage
      ensures dataTheme == Parse(Lookup(initialStorage, STORAGE_KEY))
      ensures icon == if hasHeader then Some(IconFor(dataTheme)) else None
    {
      storage := initialStorage;
      var theme := Parse(Lookup(initialStorage, STORAGE_KEY));
      dataTheme := theme;
      icon := if hasHeader then Some(IconFor(theme)) else None;
    }

    /** The button's click handler. */
    method Click()
      requires Valid() && icon.Some?
      modifies this
      ensures Valid()
      ensures dataTheme == Next(old(dataTheme)) && dataTheme != old(dataTheme)
      ensures storage == old(storage)[STORAGE_KEY := dataTheme]
      ensures icon == Some(IconFor(dataTheme))
    {
      var current := dataTheme;
      var next := if current == DARK then LIGHT else DARK;
      dataTheme := next;
      storage := storage[STORAGE_KEY := next];
      icon := Some(if next == DARK then SUN_ICON else MOON_ICON);
    }
  }
}
