/**
  * The hamburger menu of script.js: the button toggles the `open` class of
  * the navigation and of itself and mirrors the navigation's state into
  * `aria-expanded`; nav-link clicks and in-page anchor clicks close the
  * navigation.
  */
module Navigation {

  /** `String(isOpen)` */
  function AriaValue(open: bool): (v: string)
    ensures v == "true" <==> open
    ensures v == "true" || v == "false"
  {
    if open then "true" else "false"
  }

  class NavMenu {
    var navOpen: bool        // #main-nav has class "open"
    var buttonOpen: bool     // #btn-hamburger has class "open"
    var ariaExpanded: string // aria-expanded of #btn-hamburger

    /** Button class and aria-expanded agree with the navigation. */
    ghost predicate Synced()
      reads this
    {
      buttonOpen == navOpen && ariaExpanded == AriaValue(navOpen)
    }

    /** The page starts with the menu closed. */
    constructor ()
      ensures !navOpen && Synced()
    {
      navOpen, buttonOpen, ariaExpanded := false, false, "false";
    }

    /** Hamburger click: both classes flip, and aria-expanded takes the
        navigation's new state. */
    method Toggle()
      modifies this
      ensures navOpen == !old(navOpen) && buttonOpen == !old(buttonOpen)
      ensures ariaExpanded == AriaValue(navOpen)
      ensures old(Synced()) ==> Synced()
    {
      navOpen := !navOpen;
      buttonOpen := !buttonOpen;
      ariaExpanded := AriaValue(navOpen);
    }

    /** A click on a `.main-nav a` closes an open menu and changes nothing
        when it is closed. */
    method NavLinkClick()
      modifies this
      ensures old(navOpen) ==> !navOpen && !buttonOpen && ariaExpanded == "false"
      ensures !old(navOpen) ==> unchanged(this)
      ensures old(Synced()) ==> Synced()
    {
      if navOpen {
        navOpen := false;
        buttonOpen := false;
        ariaExpanded := "false";
      }
    }

    /** A click on an `a[href^="#"]`: when the fragment names an element of
        the page, the handler cancels the browser's default action,
        smooth-scrolls there itself (`scrolls`) and closes the navigation
        (only its class). Button class and aria-expanded are left as they
        were. Otherwise the handler does nothing. */
    method AnchorClick(href: string, pageIds: set<string>) returns (scrolls: bool)
      requires |href| >= 1 && href[0] == '#'
      modifies this
      ensures scrolls <==> href[1..] != [] && href[1..] in pageIds
      ensures navOpen == (old(navOpen) && !scrolls)
      ensures buttonOpen == old(buttonOpen) && ariaExpanded == old(ariaExpanded)
      ensures old(Synced()) && old(navOpen) && scrolls ==> !Synced()
    {
      var targetId := href[1..];
      if targetId == [] {
        return false;
      }
      scrolls := targetId in pageIds;
      if scrolls && navOpen {
        navOpen := false;
      }
    }

    /** A click on an in-page link inside `.main-nav`: its nav-link handler
        was registered first and runs first, so the menu is closed in full
        before the anchor handler runs, and it stays in step. */
    method NavAnchorClick(href: string, pageIds: set<string>) returns (scrolls: bool)
      requires |href| >= 1 && href[0] == '#'
      modifies this
      ensures scrolls <==> href[1..] != [] && href[1..] in pageIds
      ensures !navOpen
      ensures old(navOpen) || old(Synced()) ==> Synced()
      ensures !old(navOpen) ==> buttonOpen == old(buttonOpen) && ariaExpanded == old(ariaExpanded)
    {
      NavLinkClick();
      scrolls := AnchorClick(href, pageIds);
    }
  }
}
