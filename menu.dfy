/** The mobile navigation menu: the hamburger toggle and the menu panel each
    carry an "open" class, and the page body a "menu-open" class that locks
    background scrolling. */
module Menu {
  import opened Elements

  /** The three classes: "open" on the toggle, "open" on the menu, and
      "menu-open" on the body. */
  datatype Flags = Flags(toggleOpen: bool, menuOpen: bool, bodyLocked: bool)

  /** The three markers agree: the menu is either open everywhere or closed everywhere. */
  predicate Consistent(f: Flags)
  {
    f.toggleOpen == f.menuOpen && f.menuOpen == f.bodyLocked
  }

  /** A click on the toggle: its class and the menu's are each flipped, and the
      body's follows the toggle's new class. */
  function AfterToggleClick(f: Flags): (r: Flags)
    ensures r.toggleOpen != f.toggleOpen && r.menuOpen != f.menuOpen
    ensures r.bodyLocked == r.toggleOpen
  {
    var isOpen := !f.toggleOpen;
    Flags(isOpen, !f.menuOpen, isOpen)
  }

  /** A click inside the menu: when it landed on a navigation link all three
      classes are removed; anywhere else in the menu nothing happens. */
  function AfterMenuClick(f: Flags, onNavLink: bool): (r: Flags)
    ensures onNavLink ==> !r.toggleOpen && !r.menuOpen && !r.bodyLocked
    ensures !onNavLink ==> r == f
  {
    if onNavLink then Flags(false, false, false) else f
  }

  /** A toggle click keeps the markers in agreement and flips the shared state;
      a second click restores the first. */
  lemma ToggleClickFlips(f: Flags)
    requires Consistent(f)
    ensures Consistent(AfterToggleClick(f))
    ensures AfterToggleClick(f).toggleOpen == !f.toggleOpen
    ensures AfterToggleClick(AfterToggleClick(f)) == f
  {
  }

  /** Whatever the markers were, the body always follows the toggle after a
      toggle click, and the toggle and menu keep whatever agreement they had. */
  lemma ToggleClickSyncsBody(f: Flags)
    ensures AfterToggleClick(f).bodyLocked == AfterToggleClick(f).toggleOpen
    ensures (AfterToggleClick(f).toggleOpen == AfterToggleClick(f).menuOpen) <==> (f.toggleOpen == f.menuOpen)
  {
  }

  /** A click on a navigation link closes everything, from any state; any other
      click in the menu changes nothing. */
  lemma MenuClickCloses(f: Flags, onNavLink: bool)
    ensures onNavLink ==> Consistent(AfterMenuClick(f, onNavLink)) && !AfterMenuClick(f, onNavLink).toggleOpen
    ensures !onNavLink ==> AfterMenuClick(f, onNavLink) == f
  {
  }

  /** Starting closed: a toggle click opens all three, a navigation-link click
      closes all three, and a second toggle click from open closes all three. */
  lemma OpenThenCloseExample()
    ensures AfterToggleClick(Flags(false, false, false)) == Flags(true, true, true)
    ensures AfterMenuClick(Flags(true, true, true), true) == Flags(false, false, false)
    ensures AfterToggleClick(Flags(true, true, true)) == Flags(false, false, false)
  {
  }

  /** The toggle, the menu and the body, once both the toggle and the menu are
      present on the page and the two click handlers are attached. */
  class MobileMenu {
    var toggleOpen: bool
    var menuOpen: bool
    var bodyLocked: bool

    function State(): Flags
      reads this
    {
      Flags(toggleOpen, menuOpen, bodyLocked)
    }

    constructor (initial: Flags)
      ensures State() == initial
    {
      toggleOpen, menuOpen, bodyLocked := initial.toggleOpen, initial.menuOpen, initial.bodyLocked;
    }

    /** The toggle's click handler. */
    method OnToggleClick()
      modifies this
      ensures State() == AfterToggleClick(old(State()))
    {
      toggleOpen := !toggleOpen;
      var isOpen := toggleOpen;
      menuOpen := !menuOpen;
      if isOpen {
        bodyLocked := true;
      } else {
        bodyLocked := false;
      }
    }

    /** The menu's delegated click handler; `onNavLink` says whether the click
        target carries the `nav-link` class. */
    method OnMenuClick(onNavLink: bool)
      modifies this
      ensures State() == AfterMenuClick(old(State()), onNavLink)
    {
      if onNavLink {
        toggleOpen := false;
        menuOpen := false;
        bodyLocked := false;
      }
    }
  }

  /** The set-up: the handlers are attached only when both the toggle and the
      menu exist; otherwise there is no menu to click and no transition at all. */
  method Attach(hasToggle: bool, hasMenu: bool, initial: Flags) returns (m: Option<MobileMenu>)
    ensures m.Some? <==> hasToggle && hasMenu
    ensures m.Some? ==> fresh(m.value) && m.value.State() == initial
  {
    if hasToggle && hasMenu {
      var menu := new MobileMenu(initial);
      m := Some(menu);
    } else {
      m := None;
    }
  }
}
