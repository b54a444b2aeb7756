/**
 * The mobile menu: the `open` class on the nav container and on the hamburger, and how
 * clicks, resizes and key presses change it. A click runs the listener of the element it
 * hits first and then, as it bubbles, the document's outside-click listener.
 */
module Navigation {
  import opened Dom
  import opened Thresholds

  /** Whether the nav container and the hamburger carry the `open` class. */
  datatype MenuFlags = MenuFlags(navOpen: bool, hamburgerOpen: bool)

  const Closed := MenuFlags(false, false)

  /** Where a click lands. */
  datatype ClickTarget =
    | Hamburger                                   // the toggle control or anything inside it
    | NavLink(insideNav: bool, target: Option<int>) // a `.nav-link`; `target` is the `offsetTop` of what its href selects
    | ScrollTopButton                             // the floating button appended to the body
    | Other(insideNav: bool)                      // anything else

  /** An event reaching the menu's listeners; a key press carries `e.key` and whether `e.target` is the hamburger. */
  datatype MenuEvent =
    | Clicked(target: ClickTarget)
    | Resized(innerWidth: int)
    | KeyPressed(key: string, onHamburger: bool)

  /** `classList.toggle('open')` on both elements. */
  function Toggle(m: MenuFlags): MenuFlags
  {
    MenuFlags(!m.navOpen, !m.hamburgerOpen)
  }

  /** The document's click listener: a click outside both elements removes `open` from both. */
  function OnDocumentClick(m: MenuFlags, insideNav: bool, insideHamburger: bool): MenuFlags
  {
    if !insideNav && !insideHamburger then Closed else m
  }

  /** The listeners of the clicked element, then the document's listener. */
  function AfterClick(m: MenuFlags, t: ClickTarget): MenuFlags
  {
    match t
    case Hamburger => OnDocumentClick(Toggle(m), false, true)
    case NavLink(insideNav, _) => OnDocumentClick(Closed, insideNav, false)
    case ScrollTopButton => OnDocumentClick(m, false, false)
    case Other(insideNav) => OnDocumentClick(m, insideNav, false)
  }

  /** The window scroll a click requests, if any. */
  function ScrollRequest(t: ClickTarget, headerHeight: int): Option<int>
  {
    match t
    case NavLink(_, target) => NavScrollTarget(target, headerHeight)
    case ScrollTopButton => Some(0)
    case _ => None
  }

  /** The resize listener: a desktop width closes the menu. */
  function OnResize(m: MenuFlags, innerWidth: int): MenuFlags
  {
    if IsDesktopWidth(innerWidth) then Closed else m
  }

  /**
   * The menu's keydown listener: Escape closes; Enter or Space on the hamburger calls
   * `hamburger.click()`, which dispatches a click whose target is the hamburger.
   */
  function OnKeyDown(m: MenuFlags, key: string, onHamburger: bool): MenuFlags
  {
    var afterEscape := if key == "Escape" then Closed else m;
    if (key == "Enter" || key == " ") && onHamburger then AfterClick(afterEscape, Hamburger)
    else afterEscape
  }

  function Apply(m: MenuFlags, e: MenuEvent): MenuFlags
  {
    match e
    case Clicked(t) => AfterClick(m, t)
    case Resized(w) => OnResize(m, w)
    case KeyPressed(key, onHamburger) => OnKeyDown(m, key, onHamburger)
  }

  /** The flags after the events, in order. */
  function Run(m: MenuFlags, events: seq<MenuEvent>): MenuFlags
  {
    if |events| == 0 then m else Apply(Run(m, events[..|events| - 1]), events[|events| - 1])
  }

  /** Both elements agree on whether the menu is open. */
  predicate InSync(m: MenuFlags)
  {
    m.navOpen == m.hamburgerOpen
  }

  /** A click on the hamburger toggles both flags: the outside-click listener leaves it alone. */
  lemma HamburgerClickToggles(m: MenuFlags)
    ensures AfterClick(m, Hamburger) == Toggle(m)
    ensures AfterClick(m, Hamburger).navOpen != m.navOpen && AfterClick(m, Hamburger).hamburgerOpen != m.hamburgerOpen
  {
  }

  /** Two hamburger activations, by click or by Enter/Space, restore the original flags. */
  lemma ToggleTwiceRestores(m: MenuFlags, key: string)
    requires key == "Enter" || key == " "
    ensures AfterClick(AfterClick(m, Hamburger), Hamburger) == m
    ensures OnKeyDown(OnKeyDown(m, key, true), key, true) == m
  {
  }

  /** Enter or Space with focus on the hamburger does what a click on it does. */
  lemma KeyActivationIsClick(m: MenuFlags, key: string)
    requires key == "Enter" || key == " "
    ensures OnKeyDown(m, key, true) == AfterClick(m, Hamburger)
  {
  }

  /** A nav-link click closes the menu wherever the link sits, and closing again changes nothing. */
  lemma NavLinkClickCloses(m: MenuFlags, insideNav: bool, target: Option<int>)
    ensures AfterClick(m, NavLink(insideNav, target)) == Closed
    ensures AfterClick(AfterClick(m, NavLink(insideNav, target)), NavLink(insideNav, target)) == Closed
  {
  }

  /** Escape closes the menu, wherever the focus is; pressing it on a closed menu is a no-op. */
  lemma EscapeCloses(m: MenuFlags, onHamburger: bool)
    ensures OnKeyDown(m, "Escape", onHamburger) == Closed
    ensures OnKeyDown(Closed, "Escape", onHamburger) == Closed
  {
  }

  /** A click outside both the nav and the hamburger closes the menu, and closing again changes nothing. */
  lemma OutsideClickCloses(m: MenuFlags)
    ensures OnDocumentClick(m, false, false) == Closed
    ensures AfterClick(m, Other(false)) == Closed && AfterClick(m, ScrollTopButton) == Closed
    ensures AfterClick(Closed, Other(false)) == Closed
  {
  }

  /** A click inside the nav or inside the hamburger leaves the flags to the element's own listener. */
  lemma InsideClickUnchanged(m: MenuFlags)
    ensures OnDocumentClick(m, true, false) == m && OnDocumentClick(m, false, true) == m
    ensures OnDocumentClick(m, true, true) == m
    ensures AfterClick(m, Other(true)) == m
  {
  }

  /** A resize wider than 768 pixels closes the menu, and a further one changes nothing. */
  lemma WideResizeCloses(m: MenuFlags, innerWidth: int)
    requires innerWidth > 768
    ensures OnResize(m, innerWidth) == Closed
    ensures OnResize(OnResize(m, innerWidth), innerWidth) == Closed
  {
  }

  /** A resize to 768 pixels or less leaves the menu as it was. */
  lemma NarrowResizeUnchanged(m: MenuFlags, innerWidth: int)
    requires innerWidth <= 768
    ensures OnResize(m, innerWidth) == m
  {
  }

  /** Keys other than Escape, and Enter or Space away from the hamburger, leave the menu as it was. */
  lemma OtherKeysUnchanged(m: MenuFlags, key: string, onHamburger: bool)
    requires key != "Escape"
    requires !((key == "Enter" || key == " ") && onHamburger)
    ensures OnKeyDown(m, key, onHamburger) == m
  {
  }

  /** Every event keeps the two flags equal. */
  lemma ApplyKeepsSync(m: MenuFlags, e: MenuEvent)
    requires InSync(m)
    ensures InSync(Apply(m, e))
  {
  }

  /** Starting from agreeing flags, the nav and the hamburger agree after any sequence of events. */
  lemma {:induction false} RunKeepsSync(m: MenuFlags, events: seq<MenuEvent>)
    requires InSync(m)
    ensures InSync(Run(m, events))
  {
    if |events| > 0 {
      RunKeepsSync(m, events[..|events| - 1]);
      ApplyKeepsSync(Run(m, events[..|events| - 1]), events[|events| - 1]);
    }
  }

  /** Whatever happened before, an Escape key leaves the menu closed. */
  lemma {:induction false} RunEndingInEscapeIsClosed(m: MenuFlags, events: seq<MenuEvent>, onHamburger: bool)
    ensures Run(m, events + [KeyPressed("Escape", onHamburger)]) == Closed
  {
    var all := events + [KeyPressed("Escape", onHamburger)];
    assert all[..|all| - 1] == events;
  }

  /** A nav-link click to an existing section closes the menu and scrolls to `offsetTop - headerHeight`. */
  lemma NavLinkScenario(m: MenuFlags, insideNav: bool, top: int, headerHeight: int)
    ensures AfterClick(m, NavLink(insideNav, Some(top))) == Closed
    ensures ScrollRequest(NavLink(insideNav, Some(top)), headerHeight) == Some(top - headerHeight)
    ensures ScrollRequest(NavLink(insideNav, None), headerHeight) == None
  {
  }

  /** Resizing an open menu to 1024 pixels closes it; resizing to 600 pixels leaves it open. */
  lemma ResizeScenario()
    ensures OnResize(MenuFlags(true, true), 1024) == Closed
    ensures OnResize(MenuFlags(true, true), 600) == MenuFlags(true, true)
  {
  }
}
