/**
 The URL decisions made by the navbar and sidebar wiring of the page script:
 which page the browser is on, which navigation links are highlighted as the
 current page, whether a click on a hash link scrolls in place, and whether a
 click on a sidebar link closes the sidebar.

 Two readings of "the current page" are in play. The highlighting uses the
 last path segment with a fallback to `index.html` when that segment is empty;
 the same-page tests of the click handlers use the raw last segment, which is
 empty on a path that ends in `/`.
 */
module PageLinks {
  import opened JsString

  /** The page assumed when the path ends in `/`. */
  const IndexPage := "index.html"

  /** The class the navbar gives its current-page links. */
  const NavActive := "active"

  /** The class the sidebar gives its current-page links. */
  const SidebarActive := "active-sidebar"

  /** `pathname.split('/').pop()`: the text after the last `/`, or the whole
      path when there is none. */
  function LastSegment(pathname: string): (seg: string)
    ensures '/' !in seg
    ensures |seg| <= |pathname| && pathname[|pathname| - |seg|..] == seg
    ensures |seg| < |pathname| ==> pathname[|pathname| - |seg| - 1] == '/'
  {
    LastPiece(pathname, '/');
    Last(Split(pathname, '/'))
  }

  /** True when the path is empty or ends in `/`, so that it names no file. */
  predicate NamesDirectory(pathname: string) {
    |pathname| == 0 || pathname[|pathname| - 1] == '/'
  }

  /** `pathname.split('/').pop() || 'index.html'`: the page name used for
      highlighting. */
  function CurrentPage(pathname: string): (page: string)
    ensures page != "" && '/' !in page
    ensures NamesDirectory(pathname) ==> page == IndexPage
    ensures !NamesDirectory(pathname) ==>
              |page| <= |pathname| && page == pathname[|pathname| - |page|..] &&
              (|page| < |pathname| ==> pathname[|pathname| - |page| - 1] == '/')
  {
    var seg := LastSegment(pathname);
    if seg != "" then seg else IndexPage
  }

  /** `href.split('#')[0]`: the page part of a link, everything before its
      first `#`. */
  function PagePart(href: string): (page: string)
    ensures '#' !in page
    ensures page <= href
    ensures |page| < |href| ==> href[|page|] == '#'
  {
    FirstPiece(href, '#');
    Split(href, '#')[0]
  }

  /** `href.split('#')[1]` for a link holding a `#`: the text between the
      first `#` and the second one, or the end of the link. */
  function Fragment(href: string): (id: string)
    requires '#' in href
    ensures '#' !in id
    ensures var k := |PagePart(href)| + 1 + |id|;
            k <= |href| && href[..k] == PagePart(href) + "#" + id && (k < |href| ==> href[k] == '#')
  {
    SecondPiece(href, '#');
    Split(href, '#')[1]
  }

  /** A navigation anchor: its `href` attribute and its class list. */
  datatype Link = Link(href: string, classes: set<string>)

  /** The highlighting loop: every link whose page part is exactly `page`
      gains `marker`; nothing else changes, and no class is ever removed. */
  function MarkActive(links: seq<Link>, page: string, marker: string): (marked: seq<Link>)
    ensures |marked| == |links|
    ensures forall i :: 0 <= i < |links| ==> marked[i].href == links[i].href
    ensures forall i :: 0 <= i < |links| ==>
              (marker in marked[i].classes <==> marker in links[i].classes || PagePart(links[i].href) == page)
    ensures forall i :: 0 <= i < |links| ==>
              links[i].classes <= marked[i].classes &&
              marked[i].classes - {marker} == links[i].classes - {marker}
  {
    if |links| == 0 then []
    else
      var link := links[0];
      var head := if PagePart(link.href) == page then link.(classes := link.classes + {marker}) else link;
      [head] + MarkActive(links[1..], page, marker)
  }

  /** Highlighting the links of one list for the page at `pathname`: a link
      gains `marker` exactly when its page part is the current page name,
      with the `index.html` fallback. */
  function Highlight(links: seq<Link>, pathname: string, marker: string): (marked: seq<Link>)
    ensures |marked| == |links|
    ensures forall i :: 0 <= i < |links| ==> marked[i].href == links[i].href
    ensures forall i :: 0 <= i < |links| ==>
              (marker in marked[i].classes <==> marker in links[i].classes || PagePart(links[i].href) == CurrentPage(pathname))
    ensures forall i :: 0 <= i < |links| ==>
              links[i].classes <= marked[i].classes &&
              marked[i].classes - {marker} == links[i].classes - {marker}
  {
    MarkActive(links, CurrentPage(pathname), marker)
  }

  /** The navbar pass marks its links with `active` and the sidebar pass marks
      its links with `active-sidebar`, each exactly where the page part is the
      current page name; neither pass gives a link the other list's class. */
  lemma NavbarAndSidebarPasses(navLinks: seq<Link>, sideLinks: seq<Link>, pathname: string)
    ensures forall i :: 0 <= i < |navLinks| && NavActive !in navLinks[i].classes ==>
              (NavActive in Highlight(navLinks, pathname, NavActive)[i].classes <==>
               PagePart(navLinks[i].href) == CurrentPage(pathname))
    ensures forall i :: 0 <= i < |sideLinks| && SidebarActive !in sideLinks[i].classes ==>
              (SidebarActive in Highlight(sideLinks, pathname, SidebarActive)[i].classes <==>
               PagePart(sideLinks[i].href) == CurrentPage(pathname))
    ensures forall i :: 0 <= i < |navLinks| ==>
              (SidebarActive in Highlight(navLinks, pathname, NavActive)[i].classes <==>
               SidebarActive in navLinks[i].classes)
    ensures forall i :: 0 <= i < |sideLinks| ==>
              (NavActive in Highlight(sideLinks, pathname, SidebarActive)[i].classes <==>
               NavActive in sideLinks[i].classes)
  {
    assert NavActive != SidebarActive by {
      assert |NavActive| != |SidebarActive|;
    }
    var navMarked := Highlight(navLinks, pathname, NavActive);
    forall i | 0 <= i < |navLinks|
      ensures SidebarActive in navMarked[i].classes <==> SidebarActive in navLinks[i].classes
    {
      assert SidebarActive in navMarked[i].classes - {NavActive} <==> SidebarActive in navLinks[i].classes - {NavActive};
    }
    var sideMarked := Highlight(sideLinks, pathname, SidebarActive);
    forall i | 0 <= i < |sideLinks|
      ensures NavActive in sideMarked[i].classes <==> NavActive in sideLinks[i].classes
    {
      assert NavActive in sideMarked[i].classes - {SidebarActive} <==> NavActive in sideLinks[i].classes - {SidebarActive};
    }
  }

  /** Highlighting is idempotent: running it again changes nothing. */
  lemma {:induction false} MarkActiveIdempotent(links: seq<Link>, page: string, marker: string)
    ensures MarkActive(MarkActive(links, page, marker), page, marker) == MarkActive(links, page, marker)
    decreases |links|
  {
    if |links| > 0 {
      var once := MarkActive(links, page, marker);
      MarkActiveIdempotent(links[1..], page, marker);
      assert once[1..] == MarkActive(links[1..], page, marker);
    }
  }

  /** On a path naming a directory, a link highlighted in either list is
      exactly a link whose page part is `index.html`; links that share that
      page part are all highlighted, not just the first. */
  lemma HighlightOnDirectory(links: seq<Link>, pathname: string, marker: string)
    requires NamesDirectory(pathname)
    requires forall i :: 0 <= i < |links| ==> marker !in links[i].classes
    ensures forall i :: 0 <= i < |links| ==>
              (marker in Highlight(links, pathname, marker)[i].classes <==> PagePart(links[i].href) == IndexPage)
  {
  }

  /** What a click on a hash link does: follow it, or cancel the navigation
      and scroll to the element with the given id. */
  datatype HashClick = Navigate | ScrollTo(id: string)

  /** The smooth-scroll click handler: a link that holds `#`, does not start
      with `http` and whose page part is empty or the raw last path segment
      is intercepted; the target id is the text between its first `#` and
      the next `#` or the end. */
  function SmoothScrollClick(href: string, pathname: string): (action: HashClick)
    ensures action.ScrollTo? <==>
              '#' in href && !StartsWith(href, "http") &&
              (PagePart(href) == "" || PagePart(href) == LastSegment(pathname))
    ensures action.ScrollTo? ==>
              var k := |PagePart(href)| + 1 + |action.id|;
              '#' !in action.id && k <= |href| &&
              href[..k] == PagePart(href) + "#" + action.id &&
              (k < |href| ==> href[k] == '#')
  {
    if '#' in href && !StartsWith(href, "http") then
      var parts := Split(href, '#');
      var targetPage := parts[0];
      if targetPage == "" || targetPage == LastSegment(pathname) then ScrollTo(Fragment(href)) else Navigate
    else
      Navigate
  }

  /** The sidebar link click handler: does the click close the sidebar? */
  function SidebarLinkCloses(href: string, pathname: string): (closes: bool)
    ensures closes <==>
              '#' !in href || (PagePart(href) != "" && PagePart(href) != LastSegment(pathname))
  {
    StartsWithHas(href, '#');
    if !StartsWith(href, "#") && '#' !in href then
      true
    else if '#' in href then
      var targetPage := Split(href, '#')[0];
      targetPage != "" && targetPage != LastSegment(pathname)
    else
      false
  }

  /** A link that starts with `#` never closes the sidebar, and a click on it
      is always intercepted; when it holds no second `#`, the scroll target
      is everything after the first. */
  lemma HashOnlyLink(x: string, pathname: string)
    ensures !SidebarLinkCloses("#" + x, pathname)
    ensures SmoothScrollClick("#" + x, pathname).ScrollTo?
    ensures '#' !in x ==> SmoothScrollClick("#" + x, pathname) == ScrollTo(x)
  {
    var href := "#" + x;
    assert href[0] == '#';
    assert PagePart(href) == "";
    assert "" + ['#'] + x == href;
    SplitPieceThenSeparator("", '#', x);
  }

  /** On a path ending in `/`, the link `index.html#x` is highlighted as the
      current page, yet clicking it in the sidebar closes the sidebar and the
      smooth-scroll handler lets the browser navigate. */
  lemma IndexHashLinkOnDirectory(x: string, pathname: string)
    requires |pathname| > 0 && pathname[|pathname| - 1] == '/'
    ensures PagePart(IndexPage + "#" + x) == CurrentPage(pathname)
    ensures SidebarLinkCloses(IndexPage + "#" + x, pathname)
    ensures SmoothScrollClick(IndexPage + "#" + x, pathname) == Navigate
  {
    var href := IndexPage + "#" + x;
    assert '#' !in IndexPage;
    assert href[..|IndexPage|] == IndexPage;
    assert href[|IndexPage|] == '#';
    assert LastSegment(pathname) == "";
  }

  /** For a relative link holding `#`, the two click handlers agree: the
      sidebar closes exactly when the smooth-scroll handler lets the browser
      navigate away. */
  lemma ScrollAndCloseAgree(href: string, pathname: string)
    requires '#' in href && !StartsWith(href, "http")
    ensures SidebarLinkCloses(href, pathname) <==> SmoothScrollClick(href, pathname) == Navigate
  {
  }
}
