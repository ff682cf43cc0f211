/** The colour theme switch of script.js: the page's `data-theme`
    attribute and the preference saved beside the task list. */
module Theme {
  import opened Wrappers

  const Light := "light"
  const Auto := "auto"

  /** `value || 'auto'`: a missing or empty attribute or saved preference
      reads as "auto". */
  function OrAuto(value: Option<string>): (t: string)
    ensures t != []
    ensures value.Some? && value.value != [] ==> t == value.value
    ensures value.None? || value.value == [] ==> t == Auto
  {
    if value.Some? && value.value != [] then value.value else Auto
  }

  /** The theme toggleTheme switches to. */
  function NextTheme(current: string): string {
    if current == Light then Auto else Light
  }

  /** The switch always lands on one of the two themes, and always changes
      the theme. */
  lemma NextThemeLandsOnKnown(current: string)
    ensures NextTheme(current) == Light || NextTheme(current) == Auto
    ensures NextTheme(current) != current
  {
  }

  /** Switching twice returns to the start exactly when the start is one of
      the two themes; any other value ends on "auto". */
  lemma NextThemeTwice(current: string)
    ensures NextTheme(NextTheme(current)) == current <==> current == Light || current == Auto
    ensures NextTheme(NextTheme(current)) == if current == Light then Light else Auto
  {
  }

  /** The page's theme state: the `data-theme` attribute on the root
      element and the preference saved in local storage. */
  class ThemeSwitch {
    var attribute: Option<string>
    var saved: Option<string>

    /** loadTheme at start-up: apply the saved preference, or "auto". */
    constructor (saved: Option<string>)
      ensures this.saved == saved
      ensures attribute == Some(OrAuto(saved))
    {
      this.saved := saved;
      attribute := Some(OrAuto(saved));
    }

    /** toggleTheme: save and apply the theme after the current one. The
        write to storage is not guarded: when it throws (`writeOk` false),
        the exception ends the handler before the theme is applied, and
        nothing changes. */
    method Toggle(writeOk: bool)
      modifies this
      ensures writeOk ==> attribute == Some(NextTheme(OrAuto(old(attribute))))
      ensures writeOk ==> saved == attribute
      ensures writeOk ==> attribute.value == Light || attribute.value == Auto
      ensures writeOk && (old(attribute) == Some(Light) || old(attribute) == Some(Auto)) ==>
        attribute != old(attribute)
      ensures !writeOk ==> attribute == old(attribute) && saved == old(saved)
    {
      var current := OrAuto(attribute);
      var next := NextTheme(current);
      if !writeOk {
        return;
      }
      saved := Some(next);
      attribute := Some(next);
    }
  }
}
