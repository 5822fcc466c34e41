/** The mobile navigation of initMobileNavigation: the `.navbar-list` open flag (its
    `active` class), mirrored into the toggle's aria-expanded attribute and its icon name.
    The handlers exist only when both the toggle and the list exist. */
module MobileNav {

  /** setAttribute('aria-expanded', b) stores the boolean's string form. */
  function AttrText(b: bool): (r: string)
    ensures r == "true" <==> b
    ensures r == "false" <==> !b
  {
    if b then "true" else "false"
  }

  /** The ion-icon name shown for an open or a closed menu. */
  function IconFor(open: bool): (r: string)
    ensures r == "close-outline" <==> open
    ensures r == "menu-outline" <==> !open
  {
    if open then "close-outline" else "menu-outline"
  }

  class MobileNavigation {
    /** Whether the list carries `active`. */
    var open: bool
    /** The toggle's aria-expanded attribute. */
    var ariaExpanded: string
    /** Whether the toggle holds an ion-icon, and that icon's name. */
    const hasIcon: bool
    var iconName: string

    /** The attribute and the icon agree with the open flag. */
    ghost predicate Mirrored()
      reads this
    {
      ariaExpanded == AttrText(open) && (hasIcon ==> iconName == IconFor(open))
    }

    /** The page as loaded; its markup need not agree with itself. */
    constructor (open: bool, ariaExpanded: string, hasIcon: bool, iconName: string)
      ensures this.open == open && this.ariaExpanded == ariaExpanded
      ensures this.hasIcon == hasIcon && this.iconName == iconName
    {
      this.open := open;
      this.ariaExpanded := ariaExpanded;
      this.hasIcon := hasIcon;
      this.iconName := iconName;
    }

    /** The toggle's click listener: flip the list, then mirror the new state. */
    method Toggle()
      modifies this
      ensures open == !old(open) && Mirrored()
      ensures ariaExpanded == AttrText(open)
      ensures hasIcon ==> (iconName == "close-outline" <==> open)
      ensures !hasIcon ==> iconName == old(iconName)
    {
      open := !open;
      var isExpanded := open;
      ariaExpanded := AttrText(isExpanded);
      if hasIcon {
        iconName := IconFor(isExpanded);
      }
    }

    /** Both close paths: remove `active`, set aria-expanded to "false", show the menu icon. */
    method Close()
      modifies this
      ensures !open && ariaExpanded == "false" && Mirrored()
      ensures hasIcon ==> iconName == "menu-outline"
      ensures !hasIcon ==> iconName == old(iconName)
      ensures old(!open && Mirrored()) ==> unchanged(this)
    {
      open := false;
      ariaExpanded := AttrText(false);
      if hasIcon {
        iconName := IconFor(false);
      }
    }

    /** The click listener of a `.navbar-link`: always close. */
    method LinkClick()
      modifies this
      ensures !open && ariaExpanded == "false" && Mirrored()
      ensures !hasIcon ==> iconName == old(iconName)
      ensures old(!open && Mirrored()) ==> unchanged(this)
    {
      Close();
    }

    /** The document's click listener: close unless the target lies inside the toggle or the list. */
    method DocumentClick(inToggle: bool, inList: bool)
      modifies this
      ensures inToggle || inList ==> unchanged(this)
      ensures !inToggle && !inList ==> !open && ariaExpanded == "false" && Mirrored()
      ensures !hasIcon ==> iconName == old(iconName)
      ensures old(!open && Mirrored()) ==> unchanged(this)
    {
      if !inToggle && !inList {
        Close();
      }
    }
  }
}
