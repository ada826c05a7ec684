/** The theme toggle: the `dark` class on the body, the toggle's icon classes, and the
    `theme` entry of the preference store. The store's current value and the OS
    dark-mode query are explicit inputs. */
module Theme {
  import opened JsText

  const SunIcon: string := "fas fa-sun text-yellow-400 text-lg"
  const MoonIcon: string := "fas fa-moon text-gray-600 text-lg"

  /** What the page shows and stores: whether the body has `dark`, the icon's class
      string, and the stored `theme` value (None when the key is absent). */
  datatype ThemeState = ThemeState(dark: bool, icon: string, stored: Option<string>)

  /** The stored value is falsy in JavaScript: absent (`null`) or empty. */
  predicate NoChoice(stored: Option<string>) {
    stored == None || stored == Some("")
  }

  /** Startup. The body starts without `dark` and the icon as the markup has it; dark
      mode is switched on when the store says "dark", or when it holds no choice and
      the OS prefers dark. Any other stored value, "light" included, keeps the page
      light whatever the OS says. The store itself is only read. */
  function Init(stored: Option<string>, osPrefersDark: bool, markupIcon: string): (s: ThemeState)
    ensures stored == Some("dark") ==> s.dark
    ensures NoChoice(stored) ==> (s.dark <==> osPrefersDark)
    ensures stored != Some("dark") && !NoChoice(stored) ==> !s.dark
    ensures s.icon == (if s.dark then SunIcon else markupIcon)
    ensures s.stored == stored
  {
    var dark := stored == Some("dark") || (NoChoice(stored) && osPrefersDark);
    ThemeState(dark, if dark then SunIcon else markupIcon, stored)
  }

  /** The icon and the stored value both agree with the `dark` class. */
  predicate Persisted(s: ThemeState) {
    && s.icon == (if s.dark then SunIcon else MoonIcon)
    && s.stored == Some(if s.dark then "dark" else "light")
  }

  /** A click on the toggle: flips `dark` and makes the icon and the store agree with
      the new state, whatever they held before. */
  function Toggle(s: ThemeState): (t: ThemeState)
    ensures t.dark == !s.dark
    ensures Persisted(t)
  {
    var dark := !s.dark;
    ThemeState(dark, if dark then SunIcon else MoonIcon, Some(if dark then "dark" else "light"))
  }

  /** After a toggle, reloading the page restores the same mode, whatever the OS says. */
  lemma ToggleSurvivesReload(s: ThemeState, osPrefersDark: bool, markupIcon: string)
    ensures Init(Toggle(s).stored, osPrefersDark, markupIcon).dark == Toggle(s).dark
  {
  }

  /** Two clicks give back the starting mode, with icon and store now in step with it. */
  lemma ToggleTwice(s: ThemeState)
    ensures Toggle(Toggle(s)).dark == s.dark
    ensures Persisted(s) ==> Toggle(Toggle(s)) == s
  {
  }

  /** No stored choice and a dark OS start dark; toggling then stores "light", and the
      next load stays light even though the OS still prefers dark. */
  lemma ThemeExample(markupIcon: string)
    ensures Init(None, true, markupIcon).dark
    ensures Toggle(Init(None, true, markupIcon)).stored == Some("light")
    ensures !Init(Some("light"), true, markupIcon).dark
  {
  }
}
