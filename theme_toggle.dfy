/** The dark/light theme toggle of main.js (initThemeToggle): the theme is
    chosen at start-up from the stored preference or, when there is none,
    the operating system's; each click flips it and stores the new choice
    under the key "theme". */
module ThemeToggle {
  import opened Options

  const Sun := "fa-sun"
  const Moon := "fa-moon"

  /** Whether the body has the `dark-theme` class, the classes of the
      toggle's icon, and the value stored under "theme". */
  datatype Theme = Theme(dark: bool, icon: set<string>, stored: Option<string>)

  /** JavaScript falsiness of `localStorage.getItem`: null or "". */
  predicate Falsy(v: Option<string>) {
    v == None || v == Some("")
  }

  /** The icon shows the sun in the dark theme and the moon in the light one. */
  predicate IconMatches(t: Theme) {
    if t.dark then Sun in t.icon && Moon !in t.icon else Moon in t.icon && Sun !in t.icon
  }

  /** Whether start-up switches to the dark theme. */
  predicate PrefersDark(saved: Option<string>, prefersDark: bool) {
    saved == Some("dark") || (Falsy(saved) && prefersDark)
  }

  /** The state after start-up, given the stored value, the system
      preference, and whether the markup's body already has `dark-theme`
      and which classes the markup's icon has. Start-up only ever adds the
      dark theme; it never removes a `dark-theme` the markup carries. */
  function Initial(saved: Option<string>, prefersDark: bool, markupDark: bool, icon: set<string>): (t: Theme)
    ensures t.dark <==> markupDark || PrefersDark(saved, prefersDark)
    ensures t.stored == saved
    ensures PrefersDark(saved, prefersDark) ==> IconMatches(t)
    ensures !PrefersDark(saved, prefersDark) ==> t.icon == icon
  {
    if PrefersDark(saved, prefersDark) then
      Theme(true, icon - {Moon} + {Sun}, saved)
    else
      Theme(markupDark, icon, saved)
  }

  function StoredValue(dark: bool): string {
    if dark then "dark" else "light"
  }

  /** One click on the toggle. */
  function Toggled(t: Theme): (u: Theme)
    ensures u.dark == !t.dark
    ensures u.stored == Some(StoredValue(u.dark))
    ensures IconMatches(u)
  {
    if t.dark then Theme(false, t.icon - {Sun} + {Moon}, Some("light"))
    else Theme(true, t.icon - {Moon} + {Sun}, Some("dark"))
  }

  /** Two clicks give back the theme and the icon, and leave the stored
      value naming that theme. */
  lemma ToggleTwice(t: Theme)
    requires IconMatches(t)
    ensures Toggled(Toggled(t)) == t.(stored := Some(StoredValue(t.dark)))
  {
    if t.dark {
      assert t.icon - {Sun} + {Moon} - {Moon} + {Sun} == t.icon;
    } else {
      assert t.icon - {Moon} + {Sun} - {Sun} + {Moon} == t.icon;
    }
  }

  /** After a click, the next page load starts in the theme the click chose,
      whatever the system preference, unless the markup itself is dark. */
  lemma ReloadKeepsChoice(t: Theme, prefersDark: bool, markupDark: bool, markup: set<string>)
    ensures Initial(Toggled(t).stored, prefersDark, markupDark, markup).dark ==
            (markupDark || Toggled(t).dark)
  {
  }

  /** The page's theme state: body class, icon classes and local storage. */
  class ThemeToggle {
    var dark: bool
    var icon: set<string>
    var stored: Option<string>

    function Snapshot(): Theme
      reads this
    {
      Theme(dark, icon, stored)
    }

    constructor (saved: Option<string>, prefersDark: bool, markupDark: bool, markupIcon: set<string>)
      ensures Snapshot() == Initial(saved, prefersDark, markupDark, markupIcon)
    {
      dark, icon, stored := markupDark, markupIcon, saved;
      if saved == Some("dark") || (Falsy(saved) && prefersDark) {
        dark := true;
        icon := icon - {Moon};
        icon := icon + {Sun};
      }
    }

    method Click()
      modifies this
      ensures Snapshot() == Toggled(old(Snapshot()))
    {
      if dark {
        dark := false;
        icon := icon - {Sun};
        icon := icon + {Moon};
        stored := Some("light");
      } else {
        dark := true;
        icon := icon - {Moon};
        icon := icon + {Sun};
        stored := Some("dark");
      }
    }
  }
}
