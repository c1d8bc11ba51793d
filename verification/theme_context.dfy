/** The theme provider: the light/dark/auto preference, whether the page is
    dark, the stored preference and the "dark" class on the root element. */
module ThemeContext {
  import opened Wrappers

  /** `(localStorage.getItem("theme") as Theme) || "auto"`: a missing or
      empty stored value is "auto"; any other stored string is taken as is. */
  function SavedTheme(stored: Option<string>): (theme: string)
    ensures theme != ""
    ensures stored.Some? && stored.value != "" ==> theme == stored.value
    ensures stored.None? || stored.value == "" ==> theme == "auto"
  {
    if stored.Some? && stored.value != "" then stored.value else "auto"
  }

  /** `shouldBeDark` on load: "dark", or "auto" while the system prefers dark. */
  predicate ShouldBeDark(theme: string, systemDark: bool)
  {
    theme == "dark" || (theme == "auto" && systemDark)
  }

  /** `isDark` after `setTheme(theme)`: "dark" is dark, "light" is light, and
      anything else follows the system preference. */
  predicate DarkAfterChoice(theme: string, systemDark: bool)
  {
    if theme == "dark" then true else if theme == "light" then false else systemDark
  }

  /** The three themes the type allows. */
  predicate IsTheme(theme: string)
  {
    theme == "light" || theme == "dark" || theme == "auto"
  }

  /** For the three themes, loading a stored choice and choosing it give the
      same darkness; a stored string that is none of them loads as light,
      whereas `setTheme` would treat it like "auto". */
  lemma LoadAgreesWithChoice(theme: string, systemDark: bool)
    ensures IsTheme(theme) ==> (ShouldBeDark(theme, systemDark) <==> DarkAfterChoice(theme, systemDark))
    ensures !IsTheme(theme) ==> !ShouldBeDark(theme, systemDark)
    ensures !IsTheme(theme) ==> (DarkAfterChoice(theme, systemDark) <==> systemDark)
  {
  }

  class ThemeProvider {
    var theme: string
    var isDark: bool
    /** The "theme" entry of localStorage. */
    var stored: Option<string>
    /** `matchMedia("(prefers-color-scheme: dark)").matches`. */
    var systemDark: bool
    /** Whether the root element carries the "dark" class. */
    var rootDark: bool

    /** The root class always shows the current darkness. */
    predicate Valid()
      reads this
    {
      rootDark == isDark
    }

    /** Mounting: read the stored preference, apply the class, then set the
        state (the microtask is taken to have run). */
    constructor(stored0: Option<string>, systemDark0: bool)
      ensures Valid()
      ensures stored == stored0 && systemDark == systemDark0
      ensures theme == SavedTheme(stored0)
      ensures isDark == ShouldBeDark(SavedTheme(stored0), systemDark0)
    {
      stored := stored0;
      systemDark := systemDark0;
      var savedTheme := SavedTheme(stored0);
      var shouldBeDark := savedTheme == "dark" || (savedTheme == "auto" && systemDark0);
      rootDark := shouldBeDark;
      theme := savedTheme;
      isDark := shouldBeDark;
    }

    /** `applyTheme(dark)`: add or remove the root class. */
    method ApplyTheme(dark: bool)
      modifies this
      ensures rootDark == dark
      ensures theme == old(theme) && isDark == old(isDark)
      ensures stored == old(stored) && systemDark == old(systemDark)
    {
      rootDark := dark;
    }

    /** `setTheme(newTheme)`: store the choice and apply its darkness. */
    method SetTheme(newTheme: string)
      requires Valid()
      modifies this
      ensures Valid()
      ensures theme == newTheme && stored == Some(newTheme)
      ensures isDark == DarkAfterChoice(newTheme, old(systemDark))
      ensures systemDark == old(systemDark)
    {
      theme := newTheme;
      stored := Some(newTheme);
      if newTheme == "dark" {
        isDark := true;
        ApplyTheme(true);
      } else if newTheme == "light" {
        isDark := false;
        ApplyTheme(false);
      } else {
        var prefersDark := systemDark;
        isDark := prefersDark;
        ApplyTheme(prefersDark);
      }
    }

    /** The system preference changes; the listener exists only while the
        theme is "auto", so only then does the page follow. */
    method SystemChange(matches: bool)
      requires Valid()
      modifies this
      ensures Valid()
      ensures systemDark == matches
      ensures theme == old(theme) && stored == old(stored)
      ensures isDark == if old(theme) == "auto" then matches else old(isDark)
    {
      systemDark := matches;
      if theme == "auto" {
        isDark := matches;
        ApplyTheme(matches);
      }
    }
  }
}
