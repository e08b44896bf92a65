/**
 * The mobile navigation menu: the "active" class of the nav-links container
 * and the two icon classes of the toggle button's `<i>`.
 */
module Menu {

  class NavMenu {
    /** "active" on the nav-links container: the menu is open. */
    var linksActive: bool
    /** "fa-bars" on the toggle icon. */
    var iconBars: bool
    /** "fa-times" on the toggle icon. */
    var iconTimes: bool

    /** The menu is open exactly when the icon shows the cross, and the bars show otherwise. */
    ghost predicate Consistent()
      reads this
    {
      linksActive == iconTimes && iconBars == !iconTimes
    }

    /** Page load, assuming the markup starts with the menu closed and the bars icon. */
    constructor ()
      ensures Consistent() && !linksActive
    {
      linksActive, iconBars, iconTimes := false, true, false;
    }

    /**
     * A click on the toggle button: flips "active" on the links, then sets
     * the icon from the new state. This sets the icon right whatever it
     * showed before.
     */
    method Toggle()
      modifies this
      ensures linksActive == !old(linksActive)
      ensures Consistent()
    {
      linksActive := !linksActive;
      if linksActive {
        iconBars := false;
        iconTimes := true;
      } else {
        iconTimes := false;
        iconBars := true;
      }
    }

    /** A click on any link inside the menu: closes it and shows the bars. */
    method CloseFromLink()
      modifies this
      ensures !linksActive && !iconTimes && iconBars
      ensures Consistent()
    {
      linksActive := false;
      iconTimes := false;
      iconBars := true;
    }
  }

  /** A client view: two toggles bring the menu back to where it was, still consistent. */
  method ToggleTwice(m: NavMenu)
    modifies m
    ensures m.linksActive == old(m.linksActive) && m.Consistent()
  {
    m.Toggle();
    m.Toggle();
  }
}
