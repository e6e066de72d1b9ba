# Navbar and sidebar page logic, modelled in Dafny

The page script `common.js` loads a navbar and a sidebar fragment into every
page of the site and wires them up. Under its DOM handlers it makes a few
string decisions about URLs and keeps a small amount of interface state. This
project lifts those out as pure functions and proves what they do:

- **Page name.** The page name is the text after the last `/` of the path.
  Link highlighting falls back to `index.html` when that text is empty. The
  same-page tests of the click handlers use the raw text and have no fallback.
- **Active links.** Every link in the navbar list (class `active`) and in the
  sidebar list (class `active-sidebar`) is marked when its href, cut at the
  first `#`, equals the page name.
- **Smooth scroll.** A click on a hash link either lets the browser navigate
  or cancels navigation and scrolls to the element whose id follows the `#`.
- **Sidebar link close.** A click on a sidebar link may close the sidebar.
- **Sidebar and navbar state.** This is a record of the sidebar `active` flag,
  the overlay `active` flag, the body `overflow` style and the navbar
  `scrolled` flag. It is changed by `openSidebar`, `closeSidebar` and the
  menu, close-button, overlay, link, resize, Escape and scroll events.

Files:

- `js_string.dfy` (module `JsString`): JavaScript's `split` with a
  one-character separator, `startsWith`, and `pop()`. It proves that split and
  join are inverses, and it pins down the first, second and last pieces of a
  split by their positions in the input.
- `page_links.dfy` (module `PageLinks`): the page name, the page part and
  fragment of an href, active-link marking, and the two click decisions.
- `ui_state.dfy` (module `UiState`): which elements exist, the state record,
  `Open`/`Close`, the event datatype, `Step` and `Run`, and the invariant
  lemmas.

Notes on the script's behaviour:

- Every link whose page part matches the page name is marked, so several
  links with the same page part are all marked.
- The resize breakpoint is `innerWidth > 768`: a width of exactly 768 leaves
  the sidebar as it is.
- A same-page hash click cancels navigation even when no element has the
  target id. Only the scroll itself depends on the element existing.
- In the sidebar link handler, the test `!startsWith('#') && !includes('#')`
  is the same as `!includes('#')`. `SidebarLinkCloses` proves the simpler form.

## Model

| member | source | states |
|---|---|---|
| JsString.Split | common.js:46-48 | `split` returns at least one piece and no piece holds the separator. There is exactly one piece, the input itself, iff the input has no separator. |
| JsString.JoinSplit | common.js:73-74 | Joining the pieces of `s.split(sep)` with `sep` gives back `s`, so splitting loses no text. |
| JsString.SplitJoin | common.js:73-74 | Splitting a join of separator-free pieces gives back exactly those pieces. This is the other direction of the round trip. |
| JsString.FirstPiece | common.js:73 | `split(sep)[0]` is a prefix of the input. It is followed by a separator or by the end of the input, so it is the text before the first separator. |
| JsString.SecondPiece | common.js:74 | For an input holding the separator, `split(sep)[1]` exists. It is the text between the first separator and the next separator or the end of the input. |
| JsString.JoinLast | common.js:77 | Joining pieces puts the last piece after the join of the others and one separator. This is how `pop()` after `split` is located. |
| JsString.LastPiece | common.js:77 | `split(sep).pop()` is a suffix of the input, preceded by a separator or by the start, so it is the text after the last separator. |
| JsString.StartsWithHas | common.js:139 | A string that starts with `#` contains `#`. So the extra `startsWith('#')` test adds nothing. |
| PageLinks.LastSegment | common.js:77 | The raw page segment has no `/`. It is a suffix of the path preceded by `/` or by the start, and it may be empty. |
| PageLinks.CurrentPage | common.js:46 | The highlighting page name is never empty and has no `/`. It is `index.html` when the path is empty or ends in `/`. Otherwise it is the text after the last `/`. |
| PageLinks.PagePart | common.js:48 | The page part of an href has no `#`. It is a prefix of the href, followed by `#` or by the end. |
| PageLinks.Fragment | common.js:74 | The fragment of an href holding `#` has no `#`. It follows the page part and one `#`, and it is followed by `#` or by the end. |
| PageLinks.MarkActive | common.js:47-52 | Links keep their order and hrefs. A link has the marker afterwards iff it had it before or its page part equals the page name, so every matching link is marked. No class is removed and no other class is added. |
| PageLinks.Highlight | common.js:46-52 | For any path, a link has the marker afterwards iff it had it before or its page part equals the current page name, including the `index.html` fallback. Hrefs and order are kept, and no other class changes. The same step runs for the sidebar at lines 152-158. |
| PageLinks.NavbarAndSidebarPasses | common.js:46-52 | The navbar pass adds `active` (line 50) and the sidebar pass adds `active-sidebar` (line 156), each exactly to the unmarked links whose page part is the current page name. Neither pass adds or removes the other list's class. |
| PageLinks.MarkActiveIdempotent | common.js:153-158 | Running the highlighting twice gives the same links as running it once. |
| PageLinks.HighlightOnDirectory | common.js:152-158 | On a path ending in `/`, starting from unmarked links, exactly the links whose page part is `index.html` are marked. |
| PageLinks.SmoothScrollClick | common.js:72-83 | A click is intercepted iff the href holds `#`, does not start with `http`, and its page part is empty or equals the raw last segment. The scroll target is the text between the first `#` and the next `#` or the end. |
| PageLinks.SidebarLinkCloses | common.js:139-147 | A sidebar link click closes iff the href has no `#`, or its page part is non-empty and differs from the raw last segment. |
| PageLinks.HashOnlyLink | common.js:139-147 | An href starting with `#` never closes the sidebar and is always intercepted for scrolling. With no second `#`, the target is everything after the first. |
| PageLinks.IndexHashLinkOnDirectory | common.js:143-156 | On a path ending in `/`, `index.html#x` is the highlighted page, yet a click on it closes the sidebar and is not intercepted for scrolling. |
| PageLinks.ScrollAndCloseAgree | common.js:141-146 | For a relative href holding `#`, the sidebar closes iff the smooth-scroll handler (lines 72-79) lets the browser navigate. |
| UiState.MenuWired | common.js:59-64 | The menu button is wired only when the button, sidebar and overlay existed when the navbar was set up. So a wired button always has both sidebar elements to open. |
| UiState.Open | common.js:110-116 | With both sidebar and overlay present, opening sets both `active` and sets overflow to `hidden`. If either is missing, nothing changes. The navbar flag is untouched. |
| UiState.Close | common.js:101-107 | With both present, closing clears both `active` flags and sets overflow to `""`. If either is missing, nothing changes. The navbar flag is untouched. |
| UiState.OpenCloseIdempotent | common.js:101-116 | Open is idempotent and so is close. |
| UiState.OpenThenCloseRestores | common.js:101-116 | From a consistent closed state, open followed by close returns exactly that state. |
| UiState.Step | common.js:101-131 | Every event keeps the sidebar, overlay and overflow consistent, since every event acts only through `openSidebar` or `closeSidebar`. Only scroll events move the navbar flag, and scroll events touch nothing else. Without both sidebar elements, no event changes the sidebar state. What each event does is stated by `ClickEvents` and `ResizeAndKeys`. |
| UiState.ClickEvents | common.js:119-148 | With both sidebar elements present, a wired menu click (lines 59-63) opens the sidebar. A menu click with the sidebar fragment arriving after the navbar does nothing. The close button closes the sidebar when it exists, an overlay click closes it, and a sidebar link click closes it iff `SidebarLinkCloses` holds, so a link without `#` always closes it. |
| UiState.Run | common.js:35-212 | Folds every handler `Step` models (lines 35-43, 59-63, 119-148 and 194-212). Any sequence of events keeps the state consistent. Without both sidebar elements, it never changes the sidebar state. |
| UiState.ReachableConsistent | common.js:101-116 | From page load, every event sequence keeps sidebar-active equal to overlay-active, with overflow `hidden` iff active. Without both elements, the sidebar stays closed. |
| UiState.ResizeAndKeys | common.js:194-212 | A resize wider than 768 and the Escape key each act as `closeSidebar`: both `active` flags clear and overflow becomes `""`. A width of 768 or less and any other key change nothing. |
| UiState.NoScrollKeepsFlag | common.js:35-43 | Events other than scroll never change the navbar `scrolled` flag. |
| UiState.ScrolledFollowsLatestOffset | common.js:35-43 | With a navbar, after any events the navbar is `scrolled` iff the latest scroll offset is above 50. An offset of exactly 50 leaves it unscrolled. |
| UiState.NoNavbarNeverScrolled | common.js:35-36 | Without a navbar, the `scrolled` flag never changes. |

## Left out

- Fetching and inserting the two fragments (common.js:6-27) is left out: it is network I/O. The order in which they arrive decides the document order of the two fragments, since both are inserted at the start of the body (lines 12 and 24); that order is not modelled. It also has two effects on the modelled logic. The model keeps the first through `Nodes.sidebarBeforeNavbar`: the menu button is wired only if the sidebar was present when the navbar was set up.
- The second effect of the fragment order is not modelled. The smooth-scroll handler is attached to the hash links present when the navbar is set up (common.js:67). So a sidebar hash link gets it only if the sidebar arrived first. If the navbar arrived first, a click on a sidebar `#x` link is not intercepted and the browser does its default jump. `SmoothScrollClick` gives the handler's decision for a link that has the handler.
- Listener registration, element lookups and `stopPropagation` (common.js:59-64, 200-205) are left out. They are DOM plumbing, and element presence is modelled as booleans in `Nodes`.
- `scrollIntoView`, `scrollToElement` and the photo-input `click()` (common.js:79-81, 160-173, 217-226) are left out. They are browser side effects with no state the script reads back. The model returns the scroll target id instead.
- The login navigation and the logout handler or `alert` fallback (common.js:175-191) are left out. They are a page navigation and a call into an authentication script that is not part of this model.
- `isInViewport` (common.js:228-237) is left out because it works on floating-point layout rectangles.
- The load fade-in and the console messages (common.js:239-253) are left out: they are timing and logging.
- A missing `href` attribute is not modelled. An href is always a string, whereas in the script `getAttribute` could return null and the handler would throw.
- Strings are sequences of characters. No URL decoding or normalisation of the path is modelled, just as the script does none.
