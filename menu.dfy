/** `setupMobileMenu`: the `active` class of the toggle button and of the
    navigation menu. */
module MobileMenu {

  class Menu {
    var toggleActive: bool
    var menuActive: bool

    /** Both flags are always changed together. */
    ghost predicate Valid()
      reads this
    {
      toggleActive == menuActive
    }

    constructor ()
      ensures Valid() && !menuActive
    {
      toggleActive, menuActive := false, false;
    }

    /** A click on the toggle button flips both flags. */
    method Toggle()
      requires Valid()
      modifies this
      ensures Valid() && menuActive == !old(menuActive)
    {
      toggleActive := !toggleActive;
      menuActive := !menuActive;
    }

    /** A click on a link inside the menu closes it. */
    method OnLinkClick()
      requires Valid()
      modifies this
      ensures Valid() && !menuActive
    {
      toggleActive := false;
      menuActive := false;
    }

    /** A click anywhere in the document closes the menu unless it landed
        inside the toggle button or the menu. */
    method OnDocumentClick(insideToggle: bool, insideMenu: bool)
      requires Valid()
      modifies this
      ensures Valid()
      ensures menuActive == (old(menuActive) && (insideToggle || insideMenu))
    {
      if !insideToggle && !insideMenu {
        toggleActive := false;
        menuActive := false;
      }
    }
  }
}
