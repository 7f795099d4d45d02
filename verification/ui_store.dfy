/**
 * The UI preference store of src/store/uiStore.ts: one persisted field, the
 * active colour theme, initialised from the operating system's colour scheme
 * and flipped by `toggleTheme`.
 */
module UiStore {
  import opened Options

  /** The two values of the `theme` field; the type itself keeps the theme one of them. */
  datatype Theme = Light | Dark

  /**
   * The initial theme: the scheme the operating system reports, or `Light`
   * when it reports none (`Appearance.getColorScheme() || 'light'`).
   */
  function InitialTheme(osScheme: Option<Theme>): (t: Theme)
    ensures osScheme.Some? ==> t == osScheme.value
    ensures osScheme.None? ==> t == Light
  {
    match osScheme
    case Some(scheme) => scheme
    case None => Light
  }

  /** The theme after one toggle: always the other of the two values. */
  function Toggled(t: Theme): (r: Theme)
    ensures r != t
  {
    if t == Light then Dark else Light
  }

  /** Toggling twice returns to the original theme. */
  lemma ToggleTwice(t: Theme)
    ensures Toggled(Toggled(t)) == t
  {
  }

  /** The store object: `theme` is replaced by `toggleTheme` and by nothing else. */
  class Store {
    var theme: Theme

    constructor (osScheme: Option<Theme>)
      ensures theme == InitialTheme(osScheme)
    {
      theme := InitialTheme(osScheme);
    }

    method ToggleTheme()
      modifies this
      ensures theme == Toggled(old(theme))
      ensures theme != old(theme)
    {
      theme := Toggled(theme);
    }
  }
}
