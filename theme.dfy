/**
 * The theme state machine of `DarkModeManager` (script.js:4-65).
 *
 * The document's class list is reduced to one flag (`dark`: the root element
 * carries `dark-mode`), `localStorage` to a map from keys to strings, and the
 * button's two icon slots to their text.
 */
module Theme {
  import opened Common

  const StorageKey: string := "hacash-theme"
  const DarkValue: string := "dark"
  const LightValue: string := "light"
  /** The glyph shown while dark mode is on (U+2600 U+FE0F). */
  const SunGlyph: string := "\U{2600}\U{FE0F}"
  /** The glyph shown while dark mode is off (U+1F319). */
  const MoonGlyph: string := "\U{1F319}"

  /** `localStorage.getItem(key)`: null when the key is absent. */
  function GetItem(storage: map<string, string>, key: string): Option<string>
  {
    if key in storage then Some(storage[key]) else None
  }

  /** JavaScript truthiness of a stored value: null and the empty string are false. */
  predicate Truthy(v: Option<string>)
  {
    v.Some? && v.value != ""
  }

  /** The `isDark` decision of `loadTheme`: a stored value beats the system preference. */
  function IsDarkOnLoad(saved: Option<string>, systemDark: bool): (isDark: bool)
    ensures isDark <==> saved == Some(DarkValue) || (!Truthy(saved) && systemDark)
    ensures Truthy(saved) ==> (isDark <==> saved.value == DarkValue)
  {
    if Truthy(saved) then saved.value == DarkValue else systemDark
  }

  /** Whatever the system prefers, a stored (non-empty) value alone decides the theme on load. */
  lemma StoredValueBeatsSystem(saved: Option<string>)
    requires Truthy(saved)
    ensures IsDarkOnLoad(saved, true) == IsDarkOnLoad(saved, false) == (saved.value == DarkValue)
  {
  }

  class DarkModeManager {
    /** The root element carries the class `dark-mode`. */
    var dark: bool
    /** The page's `localStorage`. */
    var storage: map<string, string>
    /** Text of the button's `.sun-icon` and `.moon-icon` slots. */
    var sunIcon: string
    var moonIcon: string

    /** The stored theme preference. */
    function Saved(): Option<string>
      reads this
    {
      GetItem(storage, StorageKey)
    }

    /**
     * The class and the storage agree, and the sun glyph is shown in dark mode.
     * A page whose markup starts without `dark-mode` is in this state after
     * loading, and every event keeps it there.
     */
    ghost predicate Valid()
      reads this
    {
      && (dark <==> Saved() == Some(DarkValue))
      && (dark ==> sunIcon == SunGlyph && moonIcon == SunGlyph)
    }

    /**
     * Construction runs `init`, whose observable effect is `loadTheme`;
     * `markupDark` is whether the markup already carries `dark-mode`.
     */
    constructor (markupDark: bool, storage0: map<string, string>, systemDark: bool, sunText: string, moonText: string)
      ensures dark == (markupDark || IsDarkOnLoad(GetItem(storage0, StorageKey), systemDark))
      ensures IsDarkOnLoad(GetItem(storage0, StorageKey), systemDark) ==>
                storage == storage0[StorageKey := DarkValue] && sunIcon == SunGlyph && moonIcon == SunGlyph
      ensures !IsDarkOnLoad(GetItem(storage0, StorageKey), systemDark) ==>
                storage == storage0 && sunIcon == sunText && moonIcon == moonText
      ensures !markupDark ==> Valid()
    {
      dark, storage, sunIcon, moonIcon := markupDark, storage0, sunText, moonText;
      new;
      LoadTheme(systemDark);
    }

    /** `loadTheme`: enable dark mode when the stored value or, failing that, the system asks for it. */
    method LoadTheme(systemDark: bool)
      modifies this
      ensures var isDark := IsDarkOnLoad(old(Saved()), systemDark);
              if isDark then
                dark && storage == old(storage)[StorageKey := DarkValue] && sunIcon == SunGlyph && moonIcon == SunGlyph
              else
                dark == old(dark) && storage == old(storage) && sunIcon == old(sunIcon) && moonIcon == old(moonIcon)
      ensures !old(dark) ==> Valid()
    {
      var saved := GetItem(storage, StorageKey);
      var isDark := IsDarkOnLoad(saved, systemDark);
      if isDark {
        Enable();
      }
    }

    /** `toggle`: the click handler of the dark-mode button. */
    method Toggle()
      modifies this
      ensures dark == !old(dark)
      ensures storage == old(storage)[StorageKey := if dark then DarkValue else LightValue]
      ensures sunIcon == moonIcon == (if dark then SunGlyph else MoonGlyph)
      ensures Valid()
    {
      if dark {
        Disable();
      } else {
        Enable();
      }
    }

    /** `enable`: add the class, store `'dark'`, show the sun on both slots. */
    method Enable()
      modifies this
      ensures dark && Saved() == Some(DarkValue)
      ensures storage == old(storage)[StorageKey := DarkValue]
      ensures sunIcon == SunGlyph && moonIcon == SunGlyph
      ensures Valid()
    {
      dark := true;
      storage := storage[StorageKey := DarkValue];
      UpdateIcon(SunGlyph);
    }

    /** `disable`: remove the class, store `'light'`, show the moon on both slots. */
    method Disable()
      modifies this
      ensures !dark && Saved() == Some(LightValue)
      ensures storage == old(storage)[StorageKey := LightValue]
      ensures sunIcon == MoonGlyph && moonIcon == MoonGlyph
      ensures Valid()
    {
      dark := false;
      storage := storage[StorageKey := LightValue];
      UpdateIcon(MoonGlyph);
    }

    /** `updateIcon`: both icon slots receive the same glyph. */
    method UpdateIcon(icon: string)
      modifies this
      ensures sunIcon == icon && moonIcon == icon
      ensures dark == old(dark) && storage == old(storage)
    {
      sunIcon := icon;
      moonIcon := icon;
    }

    /**
     * The `change` listener on `(prefers-color-scheme: dark)`: it enables dark
     * mode when the system turns dark and nothing is stored, and does nothing else.
     */
    method OnSystemPreferenceChange(matches: bool)
      modifies this
      ensures old(Valid()) ==> Valid()
      ensures old(dark) ==> dark
      ensures dark <==> old(dark) || (matches && !Truthy(old(Saved())))
      ensures matches && !Truthy(old(Saved())) ==>
                storage == old(storage)[StorageKey := DarkValue] && sunIcon == SunGlyph && moonIcon == SunGlyph
      ensures !(matches && !Truthy(old(Saved()))) ==>
                storage == old(storage) && sunIcon == old(sunIcon) && moonIcon == old(moonIcon)
    {
      if matches && !Truthy(GetItem(storage, StorageKey)) {
        Enable();
      }
    }

    /**
     * A client scenario with no counterpart in the script (two clicks on the
     * button): they restore the original theme, and the storage records the final one.
     */
    method ToggleTwice()
      modifies this
      ensures dark == old(dark)
      ensures Saved() == Some(if dark then DarkValue else LightValue)
      ensures Valid()
    {
      Toggle();
      Toggle();
    }
  }
}
