/** The fixed scroll and width thresholds, and the scroll target of a navigation link. */
module Thresholds {
  import opened Dom

  /** Scroll offset above which the header takes its scrolled background. */
  const HeaderScrollThreshold: int := 50

  /** Scroll offset above which the scroll-to-top button shows. */
  const ScrollTopThreshold: int := 300

  /** Widest viewport still treated as the mobile layout. */
  const MobileMaxWidth: int := 768

  /**
   * The header's inline background: none until the first scroll frame, then
   * 'rgba(255, 255, 255, 0.95)' (Translucent) or 'rgba(255, 255, 255, 0.98)' (Opaque).
   */
  datatype HeaderShade = Unstyled | Translucent | Opaque

  /** The background `handleScroll` gives the header at vertical offset `scrollY`. */
  function ShadeFor(scrollY: int): HeaderShade
  {
    if scrollY > HeaderScrollThreshold then Opaque else Translucent
  }

  /** Whether the scroll-to-top button is shown at offset `pageYOffset`. */
  predicate ScrollButtonVisible(pageYOffset: int)
  {
    pageYOffset > ScrollTopThreshold
  }

  /** Whether a resize to `innerWidth` counts as the desktop layout. */
  predicate IsDesktopWidth(innerWidth: int)
  {
    innerWidth > MobileMaxWidth
  }

  /** Scroll request of a navigation link whose target's `offsetTop` is `targetTop`, if found. */
  function NavScrollTarget(targetTop: Option<int>, headerHeight: int): Option<int>
  {
    match targetTop
    case Some(top) => Some(top - headerHeight)
    case None => None
  }

  /** The header takes the 0.98 variant exactly above 50 pixels and is never left unstyled by a frame. */
  lemma ShadeThreshold(scrollY: int)
    ensures ShadeFor(scrollY) == Opaque <==> scrollY > 50
    ensures ShadeFor(scrollY) != Unstyled
  {
  }

  /** The button is visible exactly above 300 pixels. */
  lemma ButtonThreshold(pageYOffset: int)
    ensures ScrollButtonVisible(pageYOffset) <==> pageYOffset > 300
  {
  }

  /** Scrolling further down never hides the button or lightens the header. */
  lemma ThresholdsMonotone(y1: int, y2: int)
    requires y1 <= y2
    ensures ScrollButtonVisible(y1) ==> ScrollButtonVisible(y2)
    ensures ShadeFor(y1) == Opaque ==> ShadeFor(y2) == Opaque
  {
  }

  /**
   * A found target is scrolled to so that its top sits `headerHeight` pixels below the
   * viewport's top; a missing target gives no scroll at all.
   */
  lemma NavScrollAligns(targetTop: Option<int>, headerHeight: int)
    ensures NavScrollTarget(targetTop, headerHeight).Some? <==> targetTop.Some?
    ensures targetTop.Some? ==> targetTop.value - NavScrollTarget(targetTop, headerHeight).value == headerHeight
  {
  }
}
