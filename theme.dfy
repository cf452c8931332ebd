/** The theme switch: the `data-theme` attribute of the body, the value
    kept in local storage under `theme`, and the moon/sun icon. */
module Theme {
  import opened Optional

  /** `localStorage.getItem('theme') || 'dark'`: a missing or empty stored
      value falls back to dark; anything else is applied as it is. */
  function InitialTheme(stored: Option<string>): (t: string)
    ensures t != ""
    ensures stored.Some? && stored.value != "" ==> t == stored.value
    ensures stored.None? || stored == Some("") ==> t == "dark"
  {
    if stored.Some? && stored.value != "" then stored.value else "dark"
  }

  /** The toggle's rule: dark goes to light, every other value to dark. */
  function NextTheme(current: string): (t: string)
    ensures t == "light" <==> current == "dark"
    ensures t == "dark" <==> current != "dark"
  {
    if current == "dark" then "light" else "dark"
  }

  /** `n` clicks of the toggle. */
  function Toggles(t: string, n: nat): string
  {
    if n == 0 then t else NextTheme(Toggles(t, n - 1))
  }

  /** After at least one click the theme is dark or light, and it is dark
      exactly when the number of clicks is even for a page that started
      dark, and odd for one that started on any other value. */
  lemma {:induction false} TogglesAlternate(t: string, n: nat)
    requires n >= 1
    ensures Toggles(t, n) == "dark" || Toggles(t, n) == "light"
    ensures Toggles(t, n) == "dark" <==> ((n % 2 == 0) == (t == "dark"))
  {
    if n > 1 {
      TogglesAlternate(t, n - 1);
    }
  }

  /** `updateThemeIcon(theme)` on the icon's classes: moon exactly for dark,
      sun for every other theme, other classes kept. */
  function IconFor(classes: set<string>, theme: string): (r: set<string>)
    ensures ("bx-moon" in r) <==> theme == "dark"
    ensures ("bx-sun" in r) <==> theme != "dark"
    ensures r - {"bx-moon", "bx-sun"} == classes - {"bx-moon", "bx-sun"}
  {
    if theme == "dark" then classes - {"bx-sun"} + {"bx-moon"}
    else classes - {"bx-moon"} + {"bx-sun"}
  }

  class ThemeController {
    /** The body's `data-theme` attribute. */
    var dataTheme: string
    /** The value stored under `theme` in local storage. */
    var stored: Option<string>
    /** The classes of `#themeIcon`; None when the page has no icon. */
    var icon: Option<set<string>>

    /** The icon agrees with the theme, and loading the page again would
        apply the theme now shown. */
    ghost predicate Valid()
      reads this
    {
      && InitialTheme(stored) == dataTheme
      && (icon.Some? ==> ("bx-moon" in icon.value <==> dataTheme == "dark")
                         && ("bx-sun" in icon.value <==> dataTheme != "dark"))
    }

    /** Page load: the stored preference (or dark) is applied and the icon
        updated; nothing is written to storage. */
    constructor Load(stored: Option<string>, icon: Option<set<string>>)
      ensures Valid()
      ensures dataTheme == InitialTheme(stored) && this.stored == stored
      ensures this.icon == if icon.Some? then Some(IconFor(icon.value, dataTheme)) else None
    {
      var savedTheme := if stored.Some? && stored.value != "" then stored.value else "dark";
      dataTheme := savedTheme;
      this.stored := stored;
      this.icon := if icon.Some? then Some(IconFor(icon.value, savedTheme)) else None;
    }

    /** A click on the toggle: the new theme is applied, stored and shown by the icon. */
    method Toggle()
      requires Valid()
      modifies this
      ensures Valid()
      ensures dataTheme == NextTheme(old(dataTheme))
      ensures stored == Some(dataTheme)
      ensures icon == if old(icon).Some? then Some(IconFor(old(icon).value, dataTheme)) else None
    {
      var newTheme := if dataTheme == "dark" then "light" else "dark";
      dataTheme := newTheme;
      stored := Some(newTheme);
      if icon.Some? {
        icon := Some(IconFor(icon.value, newTheme));
      }
    }
  }
}
