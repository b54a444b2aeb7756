/**
 * The page controller: the state the script keeps in the document (class lists, inline
 * styles) and in its closure (`ticking`), with one method per listener. Each method is
 * specified by the step function of the module that models its rule.
 */
module Controller {
  import opened Dom
  import opened Thresholds
  import ActiveNav
  import Navigation
  import Throttle
  import Keyboard
  import Reveal

  class PageController {
    /** The `href` attribute of every `.nav-link`, in document order. */
    const linkHrefs: seq<Attr>
    /** Whether each `.nav-link` carries the `active` class. */
    const linkActive: array<bool>
    /** Every `.service-card`, in document order. */
    const serviceCards: seq<Element>

    /** The `open` class on the nav container and on the hamburger. */
    var navOpen: bool
    var hamburgerOpen: bool
    /** The closure's `ticking` flag, and the frame callbacks requested and not yet run. */
    var ticking: bool
    var pendingFrames: nat
    var headerShade: HeaderShade
    var scrollButtonVisible: bool
    /** The body's `keyboard-navigation` class. */
    var keyboardNavigation: bool
    /** The elements the observer watches, the ones carrying `active`, and pending stagger timers. */
    var observed: set<Element>
    var revealed: set<Element>
    var timers: seq<Reveal.Timer>

    function Menu(): Navigation.MenuFlags
      reads this
    {
      Navigation.MenuFlags(navOpen, hamburgerOpen)
    }

    function Frames(): Throttle.Ticker
      reads this
    {
      Throttle.Ticker(ticking, pendingFrames)
    }

    function Reveals(): Reveal.Registry
      reads this
    {
      Reveal.Registry(observed, revealed, timers)
    }

    /** The link classes are what marking with `current` leaves. */
    ghost predicate LinksMarkedFor(current: Attr)
      reads this, linkActive
    {
      && linkActive.Length == |linkHrefs|
      && forall i :: 0 <= i < linkActive.Length ==> (linkActive[i] <==> ActiveNav.MarksActive(linkHrefs[i], current))
    }

    /**
     * The controller's invariant: one class per link, the two `open` flags agree, at most
     * one frame is pending, and whatever was revealed or scheduled is no longer watched.
     */
    ghost predicate Valid()
      reads this
    {
      && linkActive.Length == |linkHrefs|
      && Navigation.InSync(Menu())
      && Throttle.Consistent(Frames())
      && Reveal.OneShot(Reveals())
    }

    /**
     * Initialisation on DOMContentLoaded: watch every reveal element, create the hidden
     * scroll-to-top button, and run `updateActiveNavLink` once.
     */
    constructor (hrefs: seq<Attr>, cards: seq<Element>, revealElements: seq<Element>,
                 sections: seq<ActiveNav.Section>, headerHeight: int, pageYOffset: int)
      ensures Valid() && fresh(linkActive)
      ensures linkHrefs == hrefs && serviceCards == cards
      ensures Menu() == Navigation.Closed && Frames() == Throttle.Idle
      ensures headerShade == Unstyled && !scrollButtonVisible && !keyboardNavigation
      ensures Reveals() == Reveal.Registry(set e | e in revealElements, {}, [])
      ensures LinksMarkedFor(ActiveNav.CurrentId(sections, headerHeight, pageYOffset))
    {
      linkHrefs := hrefs;
      linkActive := new bool[|hrefs|];
      serviceCards := cards;
      navOpen, hamburgerOpen := false, false;
      ticking, pendingFrames := false, 0;
      headerShade := Unstyled;
      scrollButtonVisible := false;
      keyboardNavigation := false;
      observed := set e | e in revealElements;
      revealed := {};
      timers := [];
      new;
      UpdateActiveNavLink(sections, headerHeight, pageYOffset);
    }

    /** The marking loop of `updateActiveNavLink`: remove `active`, then add it where the href matches. */
    method MarkLinks(current: Attr)
      requires linkActive.Length == |linkHrefs|
      modifies linkActive
      ensures LinksMarkedFor(current)
    {
      for i := 0 to linkActive.Length
        invariant forall k :: 0 <= k < i ==> (linkActive[k] <==> ActiveNav.MarksActive(linkHrefs[k], current))
      {
        linkActive[i] := false;
        if linkHrefs[i] == Str(Concat("#", current)) {
          linkActive[i] := true;
        }
      }
    }

    /** `updateActiveNavLink`: the scan over the sections, then the marking of the links. */
    method UpdateActiveNavLink(sections: seq<ActiveNav.Section>, headerHeight: int, pageYOffset: int)
      requires linkActive.Length == |linkHrefs|
      modifies linkActive
      ensures LinksMarkedFor(ActiveNav.CurrentId(sections, headerHeight, pageYOffset))
    {
      var current := ActiveNav.FindCurrent(sections, headerHeight, pageYOffset);
      MarkLinks(current);
    }

    /** `handleScroll`: refresh the links, restyle the header, clear `ticking`. */
    method HandleScroll(sections: seq<ActiveNav.Section>, headerHeight: int, scrollY: int)
      requires linkActive.Length == |linkHrefs|
      modifies linkActive, this`ticking, this`headerShade
      ensures LinksMarkedFor(ActiveNav.CurrentId(sections, headerHeight, scrollY))
      ensures headerShade == ShadeFor(scrollY) && !ticking
    {
      UpdateActiveNavLink(sections, headerHeight, scrollY);
      if scrollY > HeaderScrollThreshold {
        headerShade := Opaque;
      } else {
        headerShade := Translucent;
      }
      ticking := false;
    }

    /**
     * A window scroll event: the throttled listener requests a frame unless one is pending,
     * then the scroll-to-top listener, which is not throttled, shows or hides the button.
     */
    method OnScroll(pageYOffset: int)
      requires Valid()
      modifies this`ticking, this`pendingFrames, this`scrollButtonVisible
      ensures Valid()
      ensures Frames() == Throttle.OnScroll(old(Frames()))
      ensures scrollButtonVisible == ScrollButtonVisible(pageYOffset)
    {
      if !ticking {
        pendingFrames := pendingFrames + 1;
        ticking := true;
      }
      if pageYOffset > ScrollTopThreshold {
        scrollButtonVisible := true;
      } else {
        scrollButtonVisible := false;
      }
    }

    /** The browser's next animation frame: the requested `handleScroll`, if there is one, runs. */
    method OnAnimationFrame(sections: seq<ActiveNav.Section>, headerHeight: int, scrollY: int)
      requires Valid()
      modifies linkActive, this`ticking, this`pendingFrames, this`headerShade
      ensures Valid()
      ensures Frames() == Throttle.OnFrame(old(Frames()))
      ensures Throttle.RunsHandler(old(Frames())) ==>
                headerShade == ShadeFor(scrollY) && LinksMarkedFor(ActiveNav.CurrentId(sections, headerHeight, scrollY))
      ensures !Throttle.RunsHandler(old(Frames())) ==>
                headerShade == old(headerShade) && linkActive[..] == old(linkActive[..])
    {
      if pendingFrames > 0 {
        pendingFrames := 0;
        HandleScroll(sections, headerHeight, scrollY);
      }
    }

    /**
     * A scroll event at `pageYOffset` followed by the animation frame it leads to, with the page
     * not moving in between: the frame always runs `handleScroll`, so once it has run a visible
     * button comes with the header's 0.98 background.
     */
    method ScrollThenFrame(sections: seq<ActiveNav.Section>, headerHeight: int, pageYOffset: int)
      requires Valid()
      modifies linkActive, this`ticking, this`pendingFrames, this`headerShade, this`scrollButtonVisible
      ensures Valid()
      ensures Frames() == Throttle.Idle
      ensures scrollButtonVisible == ScrollButtonVisible(pageYOffset) && headerShade == ShadeFor(pageYOffset)
      ensures scrollButtonVisible ==> headerShade == Opaque
      ensures LinksMarkedFor(ActiveNav.CurrentId(sections, headerHeight, pageYOffset))
    {
      OnScroll(pageYOffset);
      OnAnimationFrame(sections, headerHeight, pageYOffset);
    }

    /** The hamburger's click listener: toggle `open` on both elements. */
    method HamburgerListener()
      requires Valid()
      modifies this`navOpen, this`hamburgerOpen
      ensures Valid()
      ensures Menu() == Navigation.Toggle(old(Menu()))
    {
      navOpen := !navOpen;
      hamburgerOpen := !hamburgerOpen;
    }

    /**
     * A nav link's click listener: close the menu, then scroll to the target's top less the
     * header's height when the href selects an element (`targetTop`), and not at all otherwise.
     */
    method NavLinkListener(targetTop: Option<int>, headerHeight: int) returns (scrollTo: Option<int>)
      requires Valid()
      modifies this`navOpen, this`hamburgerOpen
      ensures Valid()
      ensures Menu() == Navigation.Closed
      ensures scrollTo == NavScrollTarget(targetTop, headerHeight)
    {
      navOpen := false;
      hamburgerOpen := false;
      scrollTo := None;
      if targetTop.Some? {
        scrollTo := Some(targetTop.value - headerHeight);
      }
    }

    /** The document's click listener: a click outside both elements closes the menu. */
    method DocumentClickListener(insideNav: bool, insideHamburger: bool)
      requires Valid()
      modifies this`navOpen, this`hamburgerOpen
      ensures Valid()
      ensures Menu() == Navigation.OnDocumentClick(old(Menu()), insideNav, insideHamburger)
    {
      if !insideNav && !insideHamburger {
        navOpen := false;
        hamburgerOpen := false;
      }
    }

    /** `hamburger.click()`: a click dispatched at the hamburger, bubbling to the document. */
    method ClickHamburger()
      requires Valid()
      modifies this`navOpen, this`hamburgerOpen
      ensures Valid()
      ensures Menu() == Navigation.AfterClick(old(Menu()), Navigation.Hamburger)
    {
      HamburgerListener();
      DocumentClickListener(false, true);
    }

    /** A click: the clicked element's listener, then the document's; returns the scroll it requests. */
    method OnClick(target: Navigation.ClickTarget, headerHeight: int) returns (scrollTo: Option<int>)
      requires Valid()
      modifies this`navOpen, this`hamburgerOpen
      ensures Valid()
      ensures Menu() == Navigation.AfterClick(old(Menu()), target)
      ensures scrollTo == Navigation.ScrollRequest(target, headerHeight)
    {
      match target
      case Hamburger =>
        ClickHamburger();
        scrollTo := None;
      case NavLink(insideNav, targetTop) =>
        scrollTo := NavLinkListener(targetTop, headerHeight);
        DocumentClickListener(insideNav, false);
      case ScrollTopButton =>
        scrollTo := Some(0);
        DocumentClickListener(false, false);
      case Other(insideNav) =>
        scrollTo := None;
        DocumentClickListener(insideNav, false);
    }

    /** A window resize: wider than 768 pixels closes the menu. */
    method OnResize(innerWidth: int)
      requires Valid()
      modifies this`navOpen, this`hamburgerOpen
      ensures Valid()
      ensures Menu() == Navigation.OnResize(old(Menu()), innerWidth)
    {
      if innerWidth > MobileMaxWidth {
        navOpen := false;
        hamburgerOpen := false;
      }
    }

    /**
     * A keydown: the menu listener (Escape closes, Enter or Space on the hamburger clicks
     * it), then the listener that turns keyboard-navigation mode on for Tab.
     */
    method OnKeyDown(key: string, onHamburger: bool)
      requires Valid()
      modifies this`navOpen, this`hamburgerOpen, this`keyboardNavigation
      ensures Valid()
      ensures Menu() == Navigation.OnKeyDown(old(Menu()), key, onHamburger)
      ensures keyboardNavigation == Keyboard.Step(old(keyboardNavigation), Keyboard.KeyDown(key))
    {
      if key == "Escape" {
        navOpen := false;
        hamburgerOpen := false;
      }
      if (key == "Enter" || key == " ") && onHamburger {
        ClickHamburger();
      }
      if key == "Tab" {
        keyboardNavigation := true;
      }
    }

    /** A mousedown anywhere turns keyboard-navigation mode off. */
    method OnMouseDown()
      requires Valid()
      modifies this`keyboardNavigation
      ensures Valid()
      ensures keyboardNavigation == Keyboard.Step(old(keyboardNavigation), Keyboard.MouseDown)
    {
      keyboardNavigation := false;
    }

    /** The IntersectionObserver callback over one batch of entries. */
    method OnIntersections(entries: seq<Reveal.Entry>)
      requires Valid()
      modifies this`observed, this`revealed, this`timers
      ensures Valid()
      ensures Reveals() == Reveal.OnEntries(old(Reveals()), serviceCards, entries)
    {
      for i := 0 to |entries|
        invariant Reveals() == Reveal.OnEntries(old(Reveals()), serviceCards, entries[..i])
      {
        var entry := entries[i];
        assert entries[..i + 1][..i] == entries[..i];
        if entry.isIntersecting {
          if entry.target in serviceCards {
            var cardIndex := Reveal.IndexOf(serviceCards, entry.target);
            timers := timers + [Reveal.Timer(entry.target, Reveal.StaggerDelay(cardIndex))];
          } else {
            revealed := revealed + {entry.target};
          }
          observed := observed - {entry.target};
        }
      }
      assert entries[..|entries|] == entries;
      Reveal.OnEntriesKeepsOneShot(old(Reveals()), serviceCards, entries);
    }

    /** Stagger timer `k` fires: its card gets `active`. */
    method OnTimer(k: nat)
      requires Valid() && k < |timers|
      modifies this`revealed, this`timers
      ensures Valid()
      ensures Reveals() == Reveal.TimerFired(old(Reveals()), k)
    {
      Reveal.TimerFiredKeepsOneShot(Reveals(), k);
      revealed := revealed + {timers[k].target};
      timers := timers[..k] + timers[k + 1..];
    }
  }
}
