/**
 The interface state the page script keeps in CSS classes and one body
 style: whether the sidebar and its overlay carry `active`, the body's
 `overflow` override, and whether the navbar carries `scrolled`. The two
 sidebar operations are transitions on that state, and every event the
 script listens to is one step.

 Which page elements exist is fixed once the fragments are in place and is
 given as a set of booleans; a missing element makes the features that need
 it inert.
 */
module UiState {
  import PageLinks

  /** The body `overflow` value that locks page scrolling. */
  const Hidden := "hidden"

  /** Viewport widths above this count as desktop and close the sidebar. */
  const DesktopWidth := 768

  /** Vertical scroll offsets above this shrink the navbar. */
  const ScrollThreshold: real := 50.0

  /** The key that closes the sidebar. */
  const EscapeKey := "Escape"

  /** Which elements the wiring found. `sidebarBeforeNavbar` records the
      order in which the two fragments arrived: the menu button is wired only
      if the sidebar and overlay were already present when the navbar was. */
  datatype Nodes = Nodes(
    navbar: bool,
    menuButton: bool,
    sidebar: bool,
    overlay: bool,
    closeButton: bool,
    sidebarBeforeNavbar: bool)

  /** The state the script changes. */
  datatype Ui = Ui(sidebarActive: bool, overlayActive: bool, overflow: string, scrolled: bool)

  /** The state on page load: nothing active, no overflow override. */
  const Initial := Ui(false, false, "", false)

  /** Sidebar and overlay are open together, and page scrolling is locked
      exactly while they are. */
  predicate Consistent(s: Ui) {
    && s.sidebarActive == s.overlayActive
    && s.overflow == (if s.sidebarActive then Hidden else "")
  }

  /** True when both sidebar elements exist, so that open and close act. */
  predicate SidebarPresent(nodes: Nodes) {
    nodes.sidebar && nodes.overlay
  }

  /** True when a click on the menu button is wired to open the sidebar:
      the button, the sidebar and the overlay all existed when the navbar
      was set up. Wiring implies that opening acts. */
  predicate MenuWired(nodes: Nodes)
    ensures MenuWired(nodes) ==> SidebarPresent(nodes)
  {
    nodes.menuButton && SidebarPresent(nodes) && nodes.sidebarBeforeNavbar
  }

  /** `openSidebar`. */
  function Open(nodes: Nodes, s: Ui): (t: Ui)
    ensures SidebarPresent(nodes) ==> t.sidebarActive && t.overlayActive && t.overflow == Hidden
    ensures !SidebarPresent(nodes) ==> t == s
    ensures t.scrolled == s.scrolled
    ensures Consistent(t) || t == s
  {
    if SidebarPresent(nodes) then s.(sidebarActive := true, overlayActive := true, overflow := Hidden) else s
  }

  /** `closeSidebar`. */
  function Close(nodes: Nodes, s: Ui): (t: Ui)
    ensures SidebarPresent(nodes) ==> !t.sidebarActive && !t.overlayActive && t.overflow == ""
    ensures !SidebarPresent(nodes) ==> t == s
    ensures t.scrolled == s.scrolled
    ensures Consistent(t) || t == s
  {
    if SidebarPresent(nodes) then s.(sidebarActive := false, overlayActive := false, overflow := "") else s
  }

  /** Opening twice is opening once; closing twice is closing once. */
  lemma OpenCloseIdempotent(nodes: Nodes, s: Ui)
    ensures Open(nodes, Open(nodes, s)) == Open(nodes, s)
    ensures Close(nodes, Close(nodes, s)) == Close(nodes, s)
  {
  }

  /** Closing right after opening restores a closed state. */
  lemma OpenThenCloseRestores(nodes: Nodes, s: Ui)
    requires Consistent(s) && !s.sidebarActive
    ensures Close(nodes, Open(nodes, s)) == s
  {
  }

  /** The events the script listens to, with what each carries. */
  datatype Event =
    | MenuClick
    | CloseClick
    | OverlayClick
    | SidebarLinkClick(href: string)
    | Resize(innerWidth: int)
    | KeyDown(key: string)
    | Scroll(scrollY: real)

  /** One event on the page at `pathname`. */
  function Step(nodes: Nodes, pathname: string, s: Ui, e: Event): (t: Ui)
    ensures Consistent(s) ==> Consistent(t)
    ensures !e.Scroll? ==> t.scrolled == s.scrolled
    ensures e.Scroll? ==> t.(scrolled := s.scrolled) == s
    ensures !SidebarPresent(nodes) ==> t.(scrolled := s.scrolled) == s
  {
    match e
    case MenuClick => if MenuWired(nodes) then Open(nodes, s) else s
    case CloseClick => if nodes.closeButton then Close(nodes, s) else s
    case OverlayClick => if nodes.overlay then Close(nodes, s) else s
    case SidebarLinkClick(href) => if PageLinks.SidebarLinkCloses(href, pathname) then Close(nodes, s) else s
    case Resize(width) => if width > DesktopWidth then Close(nodes, s) else s
    case KeyDown(key) => if key == EscapeKey then Close(nodes, s) else s
    case Scroll(y) => if nodes.navbar then s.(scrolled := y > ScrollThreshold) else s
  }

  /** A sequence of events, oldest first. */
  function Run(nodes: Nodes, pathname: string, s: Ui, events: seq<Event>): (t: Ui)
    ensures Consistent(s) ==> Consistent(t)
    ensures !SidebarPresent(nodes) ==> t.(scrolled := s.scrolled) == s
    decreases |events|
  {
    if |events| == 0 then s else Run(nodes, pathname, Step(nodes, pathname, s, events[0]), events[1..])
  }

  /** Every state reachable from page load is consistent, and without both
      sidebar elements the sidebar stays closed and scrolling unlocked. */
  lemma ReachableConsistent(nodes: Nodes, pathname: string, events: seq<Event>)
    ensures Consistent(Run(nodes, pathname, Initial, events))
    ensures !SidebarPresent(nodes) ==>
              !Run(nodes, pathname, Initial, events).sidebarActive &&
              Run(nodes, pathname, Initial, events).overflow == ""
  {
  }

  /** A wide resize and the Escape key close the sidebar; a narrow resize
      and any other key leave the state as it is. */
  lemma ResizeAndKeys(nodes: Nodes, pathname: string, s: Ui, width: int, key: string)
    requires SidebarPresent(nodes)
    ensures width > DesktopWidth ==> Step(nodes, pathname, s, Resize(width)) == Close(nodes, s)
    ensures width > DesktopWidth ==>
              var t := Step(nodes, pathname, s, Resize(width));
              !t.sidebarActive && !t.overlayActive && t.overflow == ""
    ensures width <= DesktopWidth ==> Step(nodes, pathname, s, Resize(width)) == s
    ensures Step(nodes, pathname, s, KeyDown(EscapeKey)) == Close(nodes, s)
    ensures var t := Step(nodes, pathname, s, KeyDown(EscapeKey));
            !t.sidebarActive && !t.overlayActive && t.overflow == ""
    ensures key != EscapeKey ==> Step(nodes, pathname, s, KeyDown(key)) == s
  {
  }

  /** The click events: the menu button opens the sidebar when it was wired,
      the close button closes it when it exists, an overlay click closes it,
      and a sidebar link click closes it exactly when the link-close rule
      says so. */
  lemma ClickEvents(nodes: Nodes, pathname: string, s: Ui, href: string)
    requires SidebarPresent(nodes)
    ensures Step(nodes, pathname, s, MenuClick) == (if MenuWired(nodes) then Open(nodes, s) else s)
    ensures MenuWired(nodes) ==>
              var t := Step(nodes, pathname, s, MenuClick);
              t.sidebarActive && t.overlayActive && t.overflow == Hidden
    ensures !nodes.sidebarBeforeNavbar ==> Step(nodes, pathname, s, MenuClick) == s
    ensures Step(nodes, pathname, s, CloseClick) == (if nodes.closeButton then Close(nodes, s) else s)
    ensures Step(nodes, pathname, s, OverlayClick) == Close(nodes, s)
    ensures Step(nodes, pathname, s, SidebarLinkClick(href)) ==
              (if PageLinks.SidebarLinkCloses(href, pathname) then Close(nodes, s) else s)
    ensures '#' !in href ==> !Step(nodes, pathname, s, SidebarLinkClick(href)).sidebarActive
  {
  }

  /** Without scroll events the navbar flag does not change. */
  lemma {:induction false} NoScrollKeepsFlag(nodes: Nodes, pathname: string, s: Ui, events: seq<Event>)
    requires forall j :: 0 <= j < |events| ==> !events[j].Scroll?
    ensures Run(nodes, pathname, s, events).scrolled == s.scrolled
    decreases |events|
  {
    if |events| > 0 {
      NoScrollKeepsFlag(nodes, pathname, Step(nodes, pathname, s, events[0]), events[1..]);
    }
  }

  /** With a navbar, the `scrolled` flag follows the latest scroll event:
      set exactly when its offset is above 50, so an offset of exactly 50
      leaves the navbar unshrunk. */
  lemma {:induction false} ScrolledFollowsLatestOffset(nodes: Nodes, pathname: string, s: Ui, events: seq<Event>, i: nat)
    requires nodes.navbar
    requires i < |events| && events[i].Scroll?
    requires forall j :: i < j < |events| ==> !events[j].Scroll?
    ensures Run(nodes, pathname, s, events).scrolled <==> events[i].scrollY > ScrollThreshold
    decreases |events|
  {
    var t := Step(nodes, pathname, s, events[0]);
    if i == 0 {
      NoScrollKeepsFlag(nodes, pathname, t, events[1..]);
    } else {
      ScrolledFollowsLatestOffset(nodes, pathname, t, events[1..], i - 1);
    }
  }

  /** Without a navbar, scroll events change nothing. */
  lemma {:induction false} NoNavbarNeverScrolled(nodes: Nodes, pathname: string, s: Ui, events: seq<Event>)
    requires !nodes.navbar
    ensures Run(nodes, pathname, s, events).scrolled == s.scrolled
    decreases |events|
  {
    if |events| > 0 {
      NoNavbarNeverScrolled(nodes, pathname, Step(nodes, pathname, s, events[0]), events[1..]);
    }
  }
}
