/** `setupThemeToggle`: the body's `dark-theme` class, the button's icon and
    `dark-mode` class, and the stored `theme` preference. */
module ThemeToggle {
  import opened Page

  const DarkValue := "dark"
  const LightValue := "light"

  class Theme {
    /** The body has the `dark-theme` class. */
    var dark: bool
    /** The button shows the sun icon (otherwise the moon). */
    var sunIcon: bool
    /** The button has the `dark-mode` class. */
    var buttonDark: bool
    /** The value stored under the `theme` key, if any. */
    var stored: Option<string>

    /** The icon and button style follow the theme, and the stored value is
        `dark` exactly when the dark theme is on. */
    ghost predicate Valid()
      reads this
    {
      sunIcon == dark && buttonDark == dark && (stored == Some(DarkValue) <==> dark)
    }

    /** Set-up: a saved `dark` preference turns the dark theme on. */
    constructor (saved: Option<string>)
      ensures Valid()
      ensures stored == saved && dark == (saved == Some(DarkValue))
    {
      stored := saved;
      if saved == Some(DarkValue) {
        dark, sunIcon, buttonDark := true, true, true;
      } else {
        dark, sunIcon, buttonDark := false, false, false;
      }
    }

    /** A click on the button flips the theme and stores the new choice. */
    method Toggle()
      requires Valid()
      modifies this
      ensures Valid()
      ensures dark == !old(dark)
      ensures stored == Some(if dark then DarkValue else LightValue)
    {
      dark := !dark;
      sunIcon := dark;
      buttonDark := dark;
      stored := Some(if dark then DarkValue else LightValue);
    }
  }
}
