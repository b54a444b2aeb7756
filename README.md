# Page interaction controller of a portfolio site, in Dafny

`app.js` wires the interactive behaviour of a single-page portfolio site: a mobile menu
opened by a hamburger control, smooth scrolling from navigation links, highlighting of the
navigation link whose section is on screen, reveal-on-scroll animations with a stagger for
service cards, a scroll-to-top button and a keyboard-navigation mode. This project models the
decision logic behind those listeners over plain integers, booleans, sequences and sets, and
proves what each listener does to the page state.

Layout:

- `Dom.dfy` — the values read from the document: `getAttribute` results (a string or `null`),
  element handles, and JavaScript's `'#' + value` with `null` printed as "null".
- `ActiveNav.dfy` — the section scan of `updateActiveNavLink` (last match in document order
  wins, `''` when nothing matches) and the link-marking rule.
- `Navigation.dfy` — the two `open` flags of the mobile menu and the click, resize and key
  listeners that change them; a click runs the clicked element's listener and then the
  document's outside-click listener as it bubbles.
- `Throttle.dfy` — the `ticking` flag and the animation frames it requests.
- `Reveal.dfy` — the IntersectionObserver registry: watched elements, revealed elements and
  pending stagger timers.
- `Keyboard.dfy` — the body's `keyboard-navigation` class.
- `Thresholds.dfy` — the 50 px header threshold, the 300 px button threshold, the 768 px
  width threshold, and a nav link's scroll target.
- `Controller.dfy` — class `PageController`, holding all of the above as mutable fields, with
  one method per listener; each method's postcondition ties the new state to the step function
  of the module that models its rule, and its invariant `Valid()` says that the two `open`
  flags agree, at most one frame is pending, and a revealed or scheduled element is no longer
  watched.

The browser is represented by parameters: section geometry, header height, scroll offset and
viewport width are passed to the method that reads them; what a nav link's `href` selects is
passed as `Some(offsetTop)` or `None`; where a click lands is a `ClickTarget`; whether an
observer entry intersects is part of the entry.

Details of `app.js` the model keeps:

- The section window is `[offsetTop - headerHeight - 10, that + clientHeight)` (app.js:52-55),
  not `[offsetTop, offsetTop + clientHeight)`.
- The scroll-to-top button is shown or hidden by its own scroll listener, which is not
  throttled (app.js:205-213); only the links and the header wait for the animation frame.
- The header keeps its stylesheet background until the first animation frame (`Unstyled`),
  and the button stays hidden until the first scroll event, even on a page loaded scrolled down.
- Clicking the scroll-to-top button, or any element outside the nav and the hamburger, also
  closes the mobile menu, because the document's click listener (app.js:126-131) sees every click.

## Model

| member | source | states |
|---|---|---|
| Dom.Concat | app.js:62 | `'#' + value` always begins with `'#'` (that a missing attribute is printed as "null" is proved by `ActiveNav.MissingIdMarksHashNull`) |
| Dom.BareHash | app.js:62 | `'#' + current` is the bare "#" exactly when `current` is the empty string |
| ActiveNav.FindCurrent | app.js:47-58 | the forward scan that overwrites `current` returns exactly `CurrentId`, the id of the last matching section or `''` |
| ActiveNav.CurrentIdIsLastMatch | app.js:48-58 | the scan yields `''` when no window `[top - header - 10, top - header - 10 + clientHeight)` contains the offset, and the id of the last such section in document order otherwise |
| ActiveNav.SomeLastMatch | app.js:51-58 | either no window contains the offset or some section is the last match, so the two cases above cover every input |
| ActiveNav.StackedIsDisjoint | app.js:52-55 | windows that follow one another in document order without overlapping are pairwise disjoint |
| ActiveNav.DisjointSectionIsCurrent | app.js:51-58 | when no offset lies in two sections' windows, in whatever order the sections appear, every offset in section k's window makes k's id current |
| ActiveNav.NoMatchMarksBareHash | app.js:50-65 | when no section's window contains the offset, the scan leaves `current` at '' and exactly the links whose href is "#" are marked active |
| ActiveNav.MissingHrefNeverMarked | app.js:62 | a link without an href is never marked active |
| ActiveNav.MissingIdMarksHashNull | app.js:51-62 | when the last matching section has no id, `current` is null and exactly the links whose href is "#null" are marked active |
| ActiveNav.DistinctHrefsMarkAtMostOne | app.js:60-65 | if no two links share an href, at most one link is marked active |
| Controller.PageController.MarkLinks | app.js:60-65 | afterwards every link is active if and only if its href equals `'#' + current`, whatever its previous class |
| Controller.PageController.UpdateActiveNavLink | app.js:47-66 | afterwards each link is active exactly when its href is `'#'` plus the id of the last section whose window contains the offset |
| Controller.PageController.constructor | app.js:95-101 | at start every reveal element is watched, nothing is revealed or scheduled, the menu is closed, no frame is pending, the button (created at app.js:180-225) is hidden, and the links are marked for the initial offset (app.js:275) |
| Controller.PageController.HandleScroll | app.js:103-115 | marks the links for the current offset, gives the header the 0.98 variant exactly above 50 px, and clears `ticking` |
| Controller.PageController.OnScroll | app.js:117-123 | requests a frame and sets `ticking` only when it was clear; separately shows the button exactly above 300 px; keeps at most one frame pending |
| Controller.PageController.OnAnimationFrame | app.js:118-121 | a pending frame runs `handleScroll` and leaves the throttle idle; with none pending, links and header are unchanged |
| Controller.PageController.ScrollThenFrame | app.js:103-123 | a scroll event followed by the frame it requests, at one offset, always runs `handleScroll`: the throttle ends idle, the links are marked for that offset, and a visible button (app.js:206-212) comes with the 0.98 header background |
| Controller.PageController.HamburgerListener | app.js:14-19 | flips both `open` flags |
| Controller.PageController.NavLinkListener | app.js:22-44 | closes the menu, then requests a scroll to `offsetTop - headerHeight` when the target exists and none otherwise |
| Controller.PageController.DocumentClickListener | app.js:126-131 | a click outside both the nav and the hamburger closes the menu; any other click leaves it |
| Controller.PageController.ClickHamburger | app.js:257-260 | `hamburger.click()` toggles the menu: the bubbling click does not reach the close branch |
| Controller.PageController.OnClick | app.js:126-131 | runs the clicked element's listener, then the document's; the scroll-to-top button requests offset 0 |
| Controller.PageController.OnResize | app.js:134-139 | a width above 768 closes the menu, any other width leaves it |
| Controller.PageController.OnKeyDown | app.js:249-268 | Escape closes the menu, Enter or Space on the hamburger toggles it, Tab turns keyboard-navigation mode on |
| Controller.PageController.OnMouseDown | app.js:270-272 | a mousedown turns keyboard-navigation mode off |
| Controller.PageController.OnIntersections | app.js:74-93 | the registry after the callback is the entry-by-entry effect `OnEntries` of the batch, and stays one-shot |
| Controller.PageController.OnTimer | app.js:82-84 | a firing stagger timer adds its card to the revealed set and is removed |
| Navigation.HamburgerClickToggles | app.js:15-18 | a hamburger click flips both flags even though the outside-click listener also sees it |
| Navigation.ToggleTwiceRestores | app.js:15-18 | two hamburger activations, by click or by Enter/Space, restore the original flags |
| Navigation.KeyActivationIsClick | app.js:257-260 | Enter or Space with focus on the hamburger has exactly the effect of clicking it |
| Navigation.NavLinkClickCloses | app.js:26-28 | a nav-link click closes the menu wherever the link is; closing again changes nothing |
| Navigation.EscapeCloses | app.js:251-254 | Escape closes the menu and is a no-op on a closed menu |
| Navigation.OutsideClickCloses | app.js:126-131 | a click in neither the nav nor the hamburger closes the menu, idempotently |
| Navigation.InsideClickUnchanged | app.js:126-131 | the document listener leaves the flags alone for a click inside the nav or the hamburger |
| Navigation.WideResizeCloses | app.js:134-139 | a resize wider than 768 closes the menu, idempotently |
| Navigation.NarrowResizeUnchanged | app.js:134-139 | a resize to 768 or less changes nothing |
| Navigation.OtherKeysUnchanged | app.js:249-261 | keys other than Escape, and Enter/Space away from the hamburger, leave the menu alone |
| Navigation.ApplyKeepsSync | app.js:14-28 | every listener, including the document click, resize and key listeners of app.js:126-139 and 249-261, toggles both flags, clears both or leaves both, so agreeing flags stay in agreement |
| Navigation.RunKeepsSync | app.js:13-19 | from agreeing flags, the nav and the hamburger agree after any sequence of clicks, resizes and keys |
| Navigation.RunEndingInEscapeIsClosed | app.js:251-254 | whatever sequence of events came before, an Escape leaves the menu closed |
| Navigation.NavLinkScenario | app.js:33-41 | a link to an existing section closes the menu and scrolls to `offsetTop - headerHeight`; a missing target gives no scroll |
| Navigation.ResizeScenario | app.js:134-139 | resizing an open menu to 1024 px closes it, to 600 px leaves it open |
| Throttle.StepConsistent | app.js:114-122 | a scroll event or a frame keeps "at most one frame pending, exactly while ticking" |
| Throttle.RunConsistent | app.js:101-123 | from page load, after any interleaving of scroll events and frames, at most one frame is pending and `ticking` is set exactly while it is |
| Throttle.ScrollWhilePendingSchedulesNothing | app.js:119-122 | a scroll event while `ticking` is set schedules nothing |
| Throttle.ScrollWhenIdleSchedulesOne | app.js:119-122 | a scroll event while `ticking` is clear schedules exactly one frame and sets `ticking` |
| Throttle.BurstRequestsOneFrame | app.js:117-123 | any nonempty burst of scroll events between frames leaves exactly one frame pending |
| Throttle.BurstThenFrame | app.js:103-123 | a burst followed by a frame runs `handleScroll` once and leaves the throttle idle |
| Keyboard.RunCharacterized | app.js:264-272 | the mode is on exactly when a Tab came after the last mousedown, or it was on and no mousedown happened |
| Keyboard.LastInputDecides | app.js:264-272 | a Tab always turns the mode on and a mousedown always turns it off |
| Thresholds.ShadeThreshold | app.js:108-112 | a frame gives the header the 0.98 variant exactly when `scrollY > 50`, and always styles it |
| Thresholds.ButtonThreshold | app.js:206-212 | the button is visible exactly when `pageYOffset > 300` |
| Thresholds.ThresholdsMonotone | app.js:206-212 | scrolling further down never hides the button or lightens the header |
| Thresholds.NavScrollAligns | app.js:33-41 | a scroll is requested exactly when the target exists, and it puts the target's top `headerHeight` below the viewport's top |
| Reveal.IndexOf | app.js:79-80 | the position of a card in the full card list: the first one holding it, -1 exactly when absent |
| Reveal.OnEntriesEffect | app.js:74-93 | after a batch, intersecting targets are unwatched, non-card ones revealed, and there are as many new timers as intersecting card entries, each for one of those cards with its `150 × index` delay in the full list; older timers are kept |
| Reveal.NewTimerTargets | app.js:76-85 | the new timers' targets, in order, are exactly the targets of the intersecting card entries in batch order, one timer per entry, duplicates included |
| Reveal.NonIntersectingChangesNothing | app.js:75-76 | a batch with no intersecting entry changes nothing |
| Reveal.RevealIsMonotone | app.js:82-86 | neither a batch nor a timer ever removes `active` |
| Reveal.OnEntryKeepsOneShot | app.js:75-91 | one entry keeps "revealed or scheduled implies unwatched" |
| Reveal.OnEntriesKeepsOneShot | app.js:74-93 | a whole batch keeps the one-shot invariant |
| Reveal.TimerFiredKeepsOneShot | app.js:82-84 | a firing timer keeps the one-shot invariant |
| Reveal.StaggerDelayIncreasing | app.js:79-84 | a card later in the full list waits at least 150 ms longer; the first card waits 0 ms |

## Left out

- Element lookup and listener registration (`querySelector`, `querySelectorAll`,
  `addEventListener`) are replaced by the sequences and parameters described above.
- The hamburger and the nav container are assumed present: the `if (hamburger)` guard
  (app.js:14) and the handlers that would throw on a missing element are not modelled.
- The `.header` element is assumed present, since its height is a plain parameter. Without
  it app.js:35, 49 and 107 throw: `handleScroll` never clears `ticking`, so the throttle stays
  locked; a nav-link click closes the menu but does not scroll; and the first marking at
  app.js:275 aborts.
- How the observer decides `isIntersecting` (threshold 0.1, root margin -50 px, app.js:69-72)
  is browser geometry; it is an input of each entry.
- Timer timing: a stagger timer's delay is computed, but the order in which timers fire is not
  modelled; `OnTimer` may fire any pending timer.
- Smooth-scroll animation and the browser's clamping of a scroll position to the page
  (app.js:38-41, 217-220): a scroll is returned as the requested offset, which may be negative.
- A link whose href is not a valid selector (the bare "#", an absolute URL) makes
  `querySelector` throw after the menu has been closed; the model treats it as a missing target,
  which has the same effect on the page state, and does not model the reported exception.
- Hover transforms (app.js:156-176), the inline style strings, the button's markup and the
  injected stylesheet (app.js:183-200, 285-317) are presentational; the header background is
  an enumeration and the button's opacity and visibility are one boolean.
- Image preloading (app.js:228-246) is a network side effect, and the console logging
  (app.js:278-281) is diagnostic only.
- The service-card click listener (app.js:146-153) changes nothing.
- `preventDefault` calls (app.js:24, 258) and the browser's default actions are not modelled.
- Scroll offsets and layout values are integers; the browser's values can be fractional.
- The starting state assumes markup in which the menu is closed and no reveal element is
  already `active`.
- Controller.PageController.OnTimer: requires the timer to exist, since the browser fires only
  scheduled timers.
