/** The navbar: it hides while the page scrolls down, shows again when it
    scrolls up or nears the top, and carries the mobile menu's open flag. */
module Navbar {

  /** One link of the navigation list. */
  datatype NavItem = NavItem(name: string, href: string)

  const Navigation: seq<NavItem> := [
    NavItem("Services", "#services"),
    NavItem("Portfolio", "#portfolio"),
    NavItem("About", "#about"),
    NavItem("Contact", "#contact")
  ]

  /** Within this many pixels of the top the bar is always shown. */
  const TopZone: real := 50.0
  /** Moves of at most this many pixels leave the bar as it is. */
  const DeadBand: real := 10.0

  /** The visibility `controlNavbar` leaves after a scroll event at
      `currentScrollY`, given the visibility and position before it. */
  function NextVisibility(isVisible: bool, lastScrollY: real, currentScrollY: real): (v: bool)
    ensures currentScrollY <= TopZone ==> v
    ensures currentScrollY > TopZone && currentScrollY - lastScrollY > DeadBand ==> !v
    ensures currentScrollY > TopZone && lastScrollY - currentScrollY > DeadBand ==> v
    ensures currentScrollY > TopZone && -DeadBand <= currentScrollY - lastScrollY <= DeadBand ==> v == isVisible
  {
    if currentScrollY > TopZone then
      if currentScrollY > lastScrollY && currentScrollY - lastScrollY > DeadBand then false
      else if lastScrollY - currentScrollY > DeadBand then true
      else isVisible
    else true
  }

  /** Whether a link targets a section of this page (`href.startsWith("#")`). */
  predicate InPage(href: string)
  {
    "#" <= href
  }

  /** Every navigation link is an in-page link, so a click on one never
      leaves the page. */
  lemma NavigationIsInPage()
    ensures forall item :: item in Navigation ==> InPage(item.href)
  {
  }

  /** The navbar's state. */
  class NavbarState {
    var isOpen: bool
    var isVisible: bool
    var hasLoaded: bool
    var lastScrollY: real

    constructor ()
      ensures !isOpen && isVisible && !hasLoaded && lastScrollY == 0.0
    {
      isOpen := false;
      isVisible := true;
      hasLoaded := false;
      lastScrollY := 0.0;
    }

    /** `controlNavbar`, run on each scroll event with the window's position. */
    method ControlNavbar(currentScrollY: real)
      modifies this
      ensures isVisible == NextVisibility(old(isVisible), old(lastScrollY), currentScrollY)
      ensures lastScrollY == currentScrollY
      ensures isOpen == old(isOpen) && hasLoaded == old(hasLoaded)
    {
      if currentScrollY > TopZone {
        if currentScrollY > lastScrollY && currentScrollY - lastScrollY > DeadBand {
          isVisible := false;
        } else if lastScrollY - currentScrollY > DeadBand {
          isVisible := true;
        }
      } else {
        isVisible := true;
      }
      lastScrollY := currentScrollY;
    }

    /** `handleLinkClick`: closes the menu; for an in-page link it prevents
        the default navigation and scrolls smoothly to the target when the
        page has an element matching it. */
    method HandleLinkClick(href: string, targetExists: bool) returns (preventDefault: bool, scrollIntoView: bool)
      modifies this
      ensures !isOpen
      ensures isVisible == old(isVisible) && hasLoaded == old(hasLoaded) && lastScrollY == old(lastScrollY)
      ensures preventDefault <==> InPage(href)
      ensures scrollIntoView <==> InPage(href) && targetExists
    {
      isOpen := false;
      preventDefault, scrollIntoView := false, false;
      if "#" <= href {
        preventDefault := true;
        if targetExists {
          scrollIntoView := true;
        }
      }
    }

    /** The menu button. */
    method ToggleMenu()
      modifies this
      ensures isOpen == !old(isOpen)
      ensures isVisible == old(isVisible) && hasLoaded == old(hasLoaded) && lastScrollY == old(lastScrollY)
    {
      isOpen := !isOpen;
    }

    /** The backdrop behind the open menu, and the logo link. */
    method CloseMenu()
      modifies this
      ensures !isOpen
      ensures isVisible == old(isVisible) && hasLoaded == old(hasLoaded) && lastScrollY == old(lastScrollY)
    {
      isOpen := false;
    }

    /** The entry timer, 100 ms after mount. */
    method MarkLoaded()
      modifies this
      ensures hasLoaded
      ensures isOpen == old(isOpen) && isVisible == old(isVisible) && lastScrollY == old(lastScrollY)
    {
      hasLoaded := true;
    }
  }

  /** The visibility after a sequence of scroll events, from visibility
      `isVisible` at position `lastScrollY`. */
  function VisibilityAfter(isVisible: bool, lastScrollY: real, positions: seq<real>): bool
    decreases |positions|
  {
    if positions == [] then isVisible
    else VisibilityAfter(NextVisibility(isVisible, lastScrollY, positions[0]), positions[0], positions[1..])
  }

  /** Whether the scroll event at `positions[j]` is a move down of more than
      the dead band, away from the top zone. */
  predicate HidingMove(lastScrollY: real, positions: seq<real>, j: nat)
    requires j < |positions|
  {
    var before := if j == 0 then lastScrollY else positions[j - 1];
    positions[j] > TopZone && positions[j] - before > DeadBand
  }

  /** Whatever happened before, a sequence of scroll events that ends within
      the top zone leaves the bar shown. */
  lemma {:induction false} EndingNearTopShows(isVisible: bool, lastScrollY: real, positions: seq<real>)
    requires positions != [] && positions[|positions| - 1] <= TopZone
    ensures VisibilityAfter(isVisible, lastScrollY, positions)
    decreases |positions|
  {
    if |positions| > 1 {
      EndingNearTopShows(NextVisibility(isVisible, lastScrollY, positions[0]), positions[0], positions[1..]);
    }
  }

  /** A shown bar gets hidden only by a move down of more than the dead band
      outside the top zone: small jitters never hide it. */
  lemma {:induction false} HiddenOnlyByScrollingDown(lastScrollY: real, positions: seq<real>)
    requires !VisibilityAfter(true, lastScrollY, positions)
    ensures exists j: nat :: j < |positions| && HidingMove(lastScrollY, positions, j)
    decreases |positions|
  {
    var v := NextVisibility(true, lastScrollY, positions[0]);
    if !v {
      assert HidingMove(lastScrollY, positions, 0);
    } else {
      HiddenOnlyByScrollingDown(positions[0], positions[1..]);
      var j: nat :| j < |positions[1..]| && HidingMove(positions[0], positions[1..], j);
      assert HidingMove(lastScrollY, positions, j + 1);
    }
  }
}
