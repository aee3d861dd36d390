/** The light/dark theme switch: the theme is read back from local storage when the switch
    mounts, flipped by a click, and after every change written both to storage and to the
    document's `data-theme` attribute. */
module Theme {
  import opened Wrappers

  const ThemeKey: string := "careerlink-theme"
  const LightTheme: string := "careerlink"
  const DarkTheme: string := "careerlinkDark"

  predicate IsTheme(t: string) {
    t == LightTheme || t == DarkTheme
  }

  /** `storedTheme === DARK_THEME ? DARK_THEME : LIGHT_THEME`: only the exact dark name gives
      dark; a missing or unknown value gives light. */
  function InitialTheme(stored: Option<string>): (r: string)
    ensures IsTheme(r)
    ensures r == DarkTheme <==> stored == Some(DarkTheme)
  {
    if stored == Some(DarkTheme) then DarkTheme else LightTheme
  }

  /** `isDark ? LIGHT_THEME : DARK_THEME`. */
  function Toggled(t: string): (r: string)
    ensures IsTheme(r)
    ensures r == LightTheme <==> t == DarkTheme
  {
    if t == DarkTheme then LightTheme else DarkTheme
  }

  /** Two clicks bring either theme back. */
  lemma ToggleTwice(t: string)
    requires IsTheme(t)
    ensures Toggled(Toggled(t)) == t
  {
  }

  /** A saved theme is read back as itself. */
  lemma StoredThemeRoundTrip(t: string)
    requires IsTheme(t)
    ensures InitialTheme(Some(t)) == t
  {
  }

  /** `localStorage.getItem(key)`: None when the key was never set. */
  function GetItem(storage: map<string, string>, key: string): (r: Option<string>)
    ensures r.Some? <==> key in storage
    ensures r.Some? ==> r.value == storage[key]
  {
    if key in storage then Some(storage[key]) else None
  }

  /** The switch, the browser's local storage and the document attribute it writes. */
  class ThemeToggle {
    var theme: string
    var storage: map<string, string>
    var dataTheme: Option<string>

    /** Between renders the theme is one of the two names, and it is both stored and applied. */
    ghost predicate Valid()
      reads this
    {
      && IsTheme(theme)
      && GetItem(storage, ThemeKey) == Some(theme)
      && dataTheme == Some(theme)
    }

    /** Mounting: the first render holds the light theme. The first effect reads storage and
        applies the theme it implies; the second effect, still seeing the first render's light
        theme, applies it and stores it; if the stored theme was dark, the re-render the first
        effect requested runs the second effect again with dark. */
    constructor Mount(initialStorage: map<string, string>, initialDataTheme: Option<string>)
      ensures Valid()
      ensures theme == InitialTheme(GetItem(initialStorage, ThemeKey))
      ensures storage == initialStorage[ThemeKey := theme]
    {
      theme := LightTheme;
      storage := initialStorage;
      dataTheme := initialDataTheme;
      new;
      var initial := InitialTheme(GetItem(storage, ThemeKey));
      dataTheme := Some(initial);
      ApplyTheme();
      if initial != theme {
        theme := initial;
        ApplyTheme();
      }
    }

    /** The effect on `[theme]`: write the current theme to the document and to storage. */
    method ApplyTheme()
      modifies this
      ensures theme == old(theme)
      ensures dataTheme == Some(theme)
      ensures storage == old(storage)[ThemeKey := theme]
    {
      dataTheme := Some(theme);
      storage := storage[ThemeKey := theme];
    }

    /** A click flips the theme, and the effect persists and applies the new one; a later mount
        reads the same theme back. */
    method Click()
      requires Valid()
      modifies this
      ensures Valid()
      ensures theme == Toggled(old(theme))
      ensures storage == old(storage)[ThemeKey := theme]
      ensures InitialTheme(GetItem(storage, ThemeKey)) == theme
    {
      theme := Toggled(theme);
      ApplyTheme();
    }
  }
}
