/** The light/dark mode of the theme provider: its initial value from the
    system colour scheme, `loadTheme`, `toggleTheme`, and the palette it
    exposes. The system scheme is `None` when the platform reports none. */
module Theme {
  import opened Wrappers

  datatype Colors = Colors(
    primary: string, background: string, card: string, text: string,
    textSecondary: string, border: string, notification: string,
    folder: string, image: string, video: string, audio: string,
    document: string, trash: string, success: string, warning: string,
    error: string, white: string)

  datatype Palette = Palette(dark: bool, colors: Colors)

  const LightPalette := Palette(false, Colors(
    "#6366f1", "#f8fafc", "#ffffff", "#1e293b",
    "#64748b", "#e2e8f0", "#ef4444",
    "#6366f1", "#ec4899", "#8b5cf6", "#10b981",
    "#f59e0b", "#ef4444", "#22c55e", "#f59e0b",
    "#ef4444", "#ffffff"))

  const DarkPalette := Palette(true, Colors(
    "#818cf8", "#0f172a", "#1e293b", "#f1f5f9",
    "#94a3b8", "#334155", "#f87171",
    "#818cf8", "#f472b6", "#a78bfa", "#34d399",
    "#fbbf24", "#f87171", "#4ade80", "#fbbf24",
    "#f87171", "#ffffff"))

  /** The exposed `theme`: the palette whose `dark` flag is the mode. */
  function SelectTheme(isDarkMode: bool): (t: Palette)
    ensures t.dark == isDarkMode
    ensures t == DarkPalette <==> isDarkMode
    ensures t == LightPalette <==> !isDarkMode
  {
    if isDarkMode then DarkPalette else LightPalette
  }

  /** The string `toggleTheme` stores for a mode. */
  function ModeString(dark: bool): (s: string)
    ensures s == "dark" || s == "light"
    ensures s == "dark" <==> dark
  {
    if dark then "dark" else "light"
  }

  /** The mode `loadTheme` settles on: a saved value decides, and only the
      exact string `dark` means dark; with nothing saved the system scheme
      decides. */
  function LoadedMode(saved: Option<string>, systemScheme: Option<string>): (dark: bool)
    ensures saved.Some? ==> (dark <==> saved.value == ModeString(true))
    ensures saved.None? ==> (dark <==> systemScheme == Some("dark"))
  {
    if saved.Some? then saved.value == "dark" else systemScheme == Some("dark")
  }

  /** Loading what a toggle stored gives back the stored mode, whatever the
      system scheme. */
  lemma ModeRoundTrip(dark: bool, systemScheme: Option<string>)
    ensures LoadedMode(Some(ModeString(dark)), systemScheme) == dark
  {
    if !dark {
      assert "light" != "dark" by { assert "light"[0] != "dark"[0]; }
    }
  }

  /** Any saved string other than `dark`, `Light` and `DARK` included,
      loads as light. */
  lemma OtherStringsAreLight(saved: string, systemScheme: Option<string>)
    requires saved != "dark"
    ensures !LoadedMode(Some(saved), systemScheme)
    ensures SelectTheme(LoadedMode(Some(saved), systemScheme)) == LightPalette
  {
  }

  class ThemeProvider {
    /** The `isDarkMode` state. */
    var isDarkMode: bool
    /** The value under `user-theme` in storage, if any. */
    var stored: Option<string>
    /** What `useColorScheme()` reports. */
    const systemScheme: Option<string>

    /** The initial state follows the system scheme. */
    constructor (systemScheme: Option<string>, stored: Option<string>)
      ensures this.systemScheme == systemScheme && this.stored == stored
      ensures isDarkMode <==> systemScheme == Some("dark")
    {
      this.systemScheme := systemScheme;
      this.stored := stored;
      isDarkMode := systemScheme == Some("dark");
    }

    /** `loadTheme`; `readOk` is whether `getItem` succeeds (a failed read
        is logged and changes nothing). */
    method LoadTheme(readOk: bool)
      modifies this
      ensures stored == old(stored)
      ensures readOk ==> isDarkMode == LoadedMode(stored, systemScheme)
      ensures !readOk ==> isDarkMode == old(isDarkMode)
    {
      if !readOk {
        return;
      }
      var savedTheme := stored;
      if savedTheme.Some? {
        isDarkMode := savedTheme.value == "dark";
      } else {
        isDarkMode := systemScheme == Some("dark");
      }
    }

    /** `toggleTheme`; `writeOk` is whether `setItem` succeeds. The mode is
        flipped before the write, so a failed write keeps the new mode. */
    method ToggleTheme(writeOk: bool)
      modifies this
      ensures isDarkMode == !old(isDarkMode)
      ensures writeOk ==> stored == Some(ModeString(isDarkMode))
      ensures !writeOk ==> stored == old(stored)
      ensures writeOk ==> LoadedMode(stored, systemScheme) == isDarkMode
    {
      var newMode := !isDarkMode;
      isDarkMode := newMode;
      if writeOk {
        stored := Some(if newMode then "dark" else "light");
        ModeRoundTrip(newMode, systemScheme);
      }
    }
  }
}
