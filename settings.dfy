/**
 * Editor settings, the theme they resolve to, and the options they give the
 * editing widget.
 */
module Settings {
  import opened Wrappers

  /** The theme the user picks; `Device` follows the operating system. */
  datatype ThemePreference = Light | Dark | Device

  /** The colour scheme actually applied to the page. */
  datatype Appearance = LightMode | DarkMode

  datatype EditorSettings = EditorSettings(
    fontSize: int,
    tabSize: int,
    theme: ThemePreference,
    convertTabsToSpaces: bool,
    lineWrapping: bool,
    lineNumbers: bool)

  /** The settings a session starts with. */
  const Defaults := EditorSettings(16, 2, Dark, true, true, true)

  /**
   * Resolves a preference against the operating system's dark-mode flag.
   * `osPrefersDark` is None when the browser offers no media query; a
   * `Device` preference then applies nothing.
   */
  function ResolveTheme(pref: ThemePreference, osPrefersDark: Option<bool>): (r: Option<Appearance>)
    ensures r.None? <==> pref == Device && osPrefersDark.None?
    ensures r == Some(DarkMode) <==> pref == Dark || (pref == Device && osPrefersDark == Some(true))
    ensures r == Some(LightMode) <==> pref == Light || (pref == Device && osPrefersDark == Some(false))
  {
    match pref
    case Device => (match osPrefersDark
                    case Some(dark) => Some(if dark then DarkMode else LightMode)
                    case None => None)
    case Dark => Some(DarkMode)
    case Light => Some(LightMode)
  }

  /** The widget theme named by an applied appearance. */
  function AppearanceTheme(a: Appearance): (name: string)
    ensures name == "material" <==> a == DarkMode
    ensures name == "material" || name == "eclipse"
  {
    if a == DarkMode then "material" else "eclipse"
  }

  /**
   * The widget theme that reconciliation pushes. It is computed from the
   * preference alone, so `Device` gives "eclipse" whatever the OS says.
   */
  function WidgetTheme(pref: ThemePreference): (name: string)
    ensures name == "material" <==> pref == Dark
    ensures name == "material" || name == "eclipse"
  {
    if pref == Dark then "material" else "eclipse"
  }

  /** On a dark OS, `Device` applies "material" to the page but reconciliation pushes "eclipse". */
  lemma DeviceThemeDisagreesOnDarkOs()
    ensures ResolveTheme(Device, Some(true)) == Some(DarkMode)
    ensures AppearanceTheme(ResolveTheme(Device, Some(true)).value) != WidgetTheme(Device)
  {
  }

  /**
   * The OS theme-change listener: under the `Device` preference the applied
   * appearance follows the new OS flag; under any other preference nothing
   * is applied.
   */
  function OsThemeChange(pref: ThemePreference, osPrefersDark: bool): (r: Option<Appearance>)
    ensures r.Some? <==> pref == Device
    ensures r.Some? ==> r == ResolveTheme(Device, Some(osPrefersDark))
  {
    if pref == Device then Some(if osPrefersDark then DarkMode else LightMode) else None
  }

  /**
   * The listener as registered reads the preference of the first render,
   * which is the default "dark": it never applies anything, even when the
   * user has since chosen `Device`, where the current preference would
   * follow the OS.
   */
  lemma StaleThemeListenerIgnoresDevice(current: EditorSettings, osPrefersDark: bool)
    requires current.theme == Device
    ensures OsThemeChange(Defaults.theme, osPrefersDark) == None
    ensures OsThemeChange(current.theme, osPrefersDark) == Some(if osPrefersDark then DarkMode else LightMode)
  {
  }

  /** What the settings entry of the durable store held at start-up. */
  datatype StoredEntry = Absent | Malformed | Parsed(settings: EditorSettings)

  /** Start-up loading: a parsed entry replaces the settings, anything else keeps them. */
  function Load(current: EditorSettings, entry: StoredEntry): (r: EditorSettings)
    ensures entry.Parsed? ==> r == entry.settings
    ensures !entry.Parsed? ==> r == current
  {
    match entry
    case Parsed(s) => s
    case _ => current
  }
}
