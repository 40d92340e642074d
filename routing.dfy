/**
 * What a click on a navigation link does. An in-page anchor is intercepted:
 * on the projects page it sends the browser to the home page with the same
 * anchor, elsewhere it scrolls to the anchored element, 60 pixels above its
 * top. Any other link is left to the browser.
 */
module Routing {
  import opened Dom
  import opened Strings
  import ActiveLink

  const HOME_DOCUMENT := "index.html"
  const PROJECTS_DOCUMENT := "projects.html"

  /** Clearance, in pixels, left above a section scrolled to from the menu. */
  const SCROLL_CLEARANCE := 60

  datatype ClickOutcome =
    | NotIntercepted       // the browser follows the link itself
    | Redirect(url: string) // default prevented; `window.location.href = url`
    | ScrollTo(top: int)    // default prevented; smooth scroll to `top`
    | Suppressed           // default prevented and nothing else happens

  /**
   * The click handler's decision for `href` on the page at `pathname`.
   * `targetTop` is the `offsetTop` of the element the anchor selects, none
   * when the selector matches nothing.
   */
  function RouteClick(href: string, pathname: string, targetTop: Option<int>): (r: ClickOutcome)
    ensures r.NotIntercepted? <==> !(|href| > 0 && href[0] == '#')
    ensures r.Redirect? <==> |href| > 0 && href[0] == '#' && Contains(pathname, PROJECTS_DOCUMENT)
    ensures r.Redirect? ==> r.url == HOME_DOCUMENT + href
    ensures r.ScrollTo? <==> |href| > 0 && href[0] == '#' && !Contains(pathname, PROJECTS_DOCUMENT) && targetTop.Some?
    ensures r.ScrollTo? ==> r.top == targetTop.value - 60
    ensures r.Suppressed? <==> |href| > 0 && href[0] == '#' && !Contains(pathname, PROJECTS_DOCUMENT) && targetTop.None?
  {
    if StartsWith(href, "#") then
      if Contains(pathname, PROJECTS_DOCUMENT) then Redirect(HOME_DOCUMENT + href)
      else match targetTop
        case Some(top) => ScrollTo(top - SCROLL_CLEARANCE)
        case None => Suppressed
    else NotIntercepted
  }

  /**
   * The directory part of a pathname: everything up to and including its
   * last `/`, or "" when it has none.
   */
  function Directory(pathname: string): (r: string)
    ensures |r| <= |pathname| && r == pathname[..|r|]
    ensures r == "" || r[|r| - 1] == '/'
    ensures forall k :: |r| <= k < |pathname| ==> pathname[k] != '/'
    decreases |pathname|
  {
    if pathname == "" then ""
    else if pathname[|pathname| - 1] == '/' then pathname
    else Directory(pathname[..|pathname| - 1])
  }

  /**
   * The pathname the browser loads for a redirect from `pathname`: the
   * relative address `"index.html" + href` resolved against the current
   * directory. The href starts with `#`, so all of it is the fragment.
   */
  function RedirectLanding(pathname: string): string {
    Directory(pathname) + HOME_DOCUMENT
  }

  /**
   * A redirect lands on a page that tracks the active section: the address
   * is the home document followed by the clicked anchor as its fragment, and
   * the pathname it resolves to passes the home-page test.
   */
  lemma RedirectLandsOnHomePage(href: string, pathname: string, targetTop: Option<int>)
    requires RouteClick(href, pathname, targetTop).Redirect?
    ensures var url := RouteClick(href, pathname, targetTop).url;
            && url[..|HOME_DOCUMENT|] == HOME_DOCUMENT
            && url[|HOME_DOCUMENT|..] == href && href[0] == '#'
            && ActiveLink.IsHomePage(RedirectLanding(pathname))
  {
    ActiveLink.HomeDocumentIsHomePage(Directory(pathname));
  }

  /** The directory ends at the last `/` of the pathname. */
  lemma DirectoryEndsAtLastSlash(pathname: string, k: nat)
    requires k < |pathname| && pathname[k] == '/'
    requires forall j :: k < j < |pathname| ==> pathname[j] != '/'
    ensures Directory(pathname) == pathname[..k + 1]
  {
  }

  lemma RedirectLandingExamples()
    ensures RedirectLanding("/projects.html") == "/index.html"
    ensures RedirectLanding("/site/projects.html") == "/site/index.html"
  {
    DirectoryEndsAtLastSlash("/projects.html", 0);
    DirectoryEndsAtLastSlash("/site/projects.html", 5);
  }

  /**
   * Scrolling to a section from the menu leaves the offset inside that
   * section's span whenever the section is taller than 20 pixels, so the
   * next scroll event can mark it active.
   */
  lemma ScrollLandsInSection(href: string, pathname: string, s: ActiveLink.Section)
    requires s.offsetHeight > ActiveLink.HEADER_ALLOWANCE - SCROLL_CLEARANCE
    requires RouteClick(href, pathname, Some(s.offsetTop)).ScrollTo?
    ensures ActiveLink.Covers(s, RouteClick(href, pathname, Some(s.offsetTop)).top)
  {
  }
}
