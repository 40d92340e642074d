# Portfolio page behaviour, modelled in Dafny

The portfolio site's `script.js` drives a single page. It has five viewport
watchers that reveal elements as they scroll into view, a navigation bar that
restyles itself and highlights the link of the current section, a click
handler that scrolls to a section or sends the visitor back to the home page,
and project modals. This project models the decisions and state updates
inside those handlers over an abstract page. The page is modelled like this:

- elements are indices in tree order;
- every element has a set of CSS class names;
- a modal has an inline `display` value, shown or hidden;
- the window holds a list of timers not yet fired, each of which will add a
  class to an element later;
- the watched sections have integer layout offsets.

Modules:

- `Dom` (dom.dfy): the page state class `Page` and its class-list, display
  and timer operations. Also the DOM lookups the handlers rely on:
  `classList.toggle(token, force)`, `getElementById`, and `closest` over a
  parent array.
- `Strings` (strings.dfy): `startsWith` and `includes`.
- `Reveal` (reveal.dfy): the five watcher callbacks. Each one is a loop over
  a batch of entries, proved equal to a function of the old state and the
  batch. Each such function states, element by element, what the batch does.
- `Navbar` (navbar.dfy): the `scrolled` style.
- `ActiveLink` (active_link.dfy): `updateActiveLink` (the current section,
  then the links' `active` class) and the home-page test.
- `Routing` (routing.dfy): the navigation-link click decision.
- `Modals` (modals.dfy): opening by id, closing by close control, and closing
  by backdrop click.

Modelling decisions:

- A watcher entry is the element plus the `isIntersecting` flag. The browser
  applies the 20% threshold before the callback runs, so the flag is an input.
- A staggered `setTimeout` becomes a `Scheduled(target, className, delay)`
  value appended to `Page.pending`. The model records that the timer exists;
  it does not run it.
- The footer watcher's observed set is an `Observer` object, because that
  callback calls `unobserve`. `Delivered` models the browser's rule that a
  watcher only receives entries for elements it still observes.
- The code and the design description disagree on one point. The design
  says at most one navigation link is ever active. The code marks every link
  whose `href` equals `"#" + current`. So the invariant holds only when link
  hrefs are distinct, and when no section matches, every link with
  `href="#"` becomes active. The model follows the code
  (`ActiveLinkFollowsSection`), and proves the invariant under the
  distinct-hrefs condition (`AtMostOneActive`).
- The lemmas about which links end up active (`HighlightedMarksTarget`,
  `UpdateIsIdempotent`, `ActiveLinkFollowsSection`, `AtMostOneActive`)
  require `ConsistentLinks`: an element listed twice has one `href`. This
  always holds in a real document, because an element has a single `href`
  attribute. `Highlighted` and `UpdateActiveLink` themselves require nothing.
- A redirect address `"index.html#…"` is relative. The browser resolves it
  against the directory of the current pathname (`Routing.Directory`), so
  the page it loads is `RedirectLanding(pathname)`.
- `CloseModal` requires a valid tree and that the close control is an
  element of it.

## Model

| member | source | states |
|---|---|---|
| `Dom.Toggle` | script.js:80 | the token is present exactly when `force` holds; every other class is kept |
| `Dom.ElementById` | script.js:186 | returns the first element in tree order with that id; none when the id is empty or no element has it |
| `Dom.Closest` | script.js:193 | returns the nearest inclusive ancestor carrying the class: every other matching ancestor lies above it; none when no inclusive ancestor matches |
| `Dom.Page.Add` | script.js:13 | `classList.add`: the element's class list gains the token; no other element, display or timer changes |
| `Dom.Page.Remove` | script.js:15 | `classList.remove`: the element's class list loses the token; nothing else changes |
| `Dom.Page.ToggleClass` | script.js:80 | `classList.toggle(token, force)` on one element; nothing else changes |
| `Dom.Page.SetDisplay` | script.js:186 | writes the inline display of one element; class lists and timers are unchanged |
| `Dom.Page.SetTimeout` | script.js:92 | appends one deferred class addition to the pending timers; nothing else changes |
| `Strings.StartsWith` | script.js:148 | `startsWith` holds exactly when the prefix is no longer than the string and agrees with it character by character; `RouteClick`'s contract turns it into `href[0] == '#'` |
| `Strings.Contains` | script.js:151 | `includes` holds exactly when the needle occurs at some position of the string |
| `Reveal.LastEntry` | script.js:11-17 | returns the flag of the last entry of the batch for an element, or none when the batch has no entry for it |
| `Reveal.TargetsWith` | script.js:108-113 | the set of elements with at least one entry of the given intersection state |
| `Reveal.ApplyToggles` | script.js:10-18 | after an add-on-enter, remove-on-exit batch, an element of the batch carries the class exactly when its last entry intersects; other classes and elements outside the batch are unchanged |
| `Reveal.RemoveOnExit` | script.js:93-95 | the class is removed at once from each element with a non-intersecting entry; nothing else changes |
| `Reveal.Staggered` | script.js:90-96 | one timer per intersecting entry, adding the class after the entry's batch index times the step; no timer for a non-intersecting entry; no other timer |
| `Reveal.StaggeredInBatchOrder` | script.js:90-92 | with a positive step, each scheduled delay is strictly larger than the previous one, so reveals fire in batch order |
| `Reveal.FooterClasses` | script.js:107-114 | the footer gains `footer-visible` when some entry intersects; no class is removed and no other element changes |
| `Reveal.Delivered` | script.js:116 | the browser delivers no more entries than the batch holds, and an entry is delivered exactly when it is in the batch and its target is still observed |
| `Reveal.FooterOneShot` | script.js:107-116 | once a delivered batch reaches the footer, it carries `footer-visible`, nothing is observed any more, and every later batch is empty and changes nothing |
| `Reveal.Observer.Unobserve` | script.js:111 | the element leaves the observed set |
| `Reveal.ToggleCallback` | script.js:11-17 | the loop over the batch leaves the class lists equal to `ApplyToggles`; display and timers are unchanged |
| `Reveal.ProjectCallback` | script.js:10-18 | rows and cards: `ApplyToggles` with `visible` |
| `Reveal.CertCallback` | script.js:62-70 | certification cards: `ApplyToggles` with `visible-cert` |
| `Reveal.SkillCallback` | script.js:89-97 | exits remove `skill-visible` at once; entries schedule `Staggered` timers with step 120 ms |
| `Reveal.FooterCallback` | script.js:107-114 | class lists become `FooterClasses`; every element with an intersecting entry is removed from the observed set |
| `Reveal.ContactCallback` | script.js:210-216 | schedules `Staggered` timers with step 150 ms; class lists and display are unchanged, so `visible-contact` is never removed |
| `Navbar.OnScroll` | script.js:78-81 | the bar carries `scrolled` exactly when the offset exceeds 30; its other classes and every other element are unchanged |
| `Navbar.ScrolledIsHistoryFree` | script.js:80 | whatever the previous class list, the `scrolled` outcome depends only on the offset |
| `ActiveLink.LastCovering` | script.js:126-133 | returns the last section in document order whose span `[offsetTop-80, offsetTop-80+offsetHeight)` holds the offset; none when no section does |
| `ActiveLink.FindCurrent` | script.js:126-133 | the section loop returns the id of that last covering section, or "" |
| `ActiveLink.Highlighted` | script.js:135-140 | only the links' elements gain keys; no class other than `active` changes on any element; elements that are not links keep their class lists |
| `ActiveLink.HighlightedMarksTarget` | script.js:135-140 | each link carries `active` exactly when its href equals the target |
| `ActiveLink.UpdateActiveLink` | script.js:125-141 | the whole update leaves the class lists equal to `Highlighted` for the target `"#" + current` |
| `ActiveLink.UpdateIsIdempotent` | script.js:125-141 | a second update with the same offset and geometry yields exactly the class lists of the first |
| `ActiveLink.ActiveLinkFollowsSection` | script.js:126-140 | a link is active exactly when its href is `"#"` plus the last covering section's id, or `"#"` when no section covers the offset |
| `ActiveLink.AtMostOneActive` | script.js:135-140 | with pairwise distinct hrefs, at most one link is active after an update |
| `ActiveLink.IsHomePage` | script.js:169 | the home-page test holds exactly when the pathname is `/` or `index.html` occurs at some position of it (its general property is `HomeDocumentIsHomePage`) |
| `ActiveLink.HomeDocumentIsHomePage` | script.js:169 | every path that ends in `index.html`, in any directory, passes the home-page test |
| `ActiveLink.HomePageExamples` | script.js:169 | `/`, `/index.html` and `/site/index.html` are home pages; `/projects.html` and the empty path are not |
| `Routing.RouteClick` | script.js:146-163 | a non-`#` href is not intercepted; a `#` href on a path containing `projects.html` redirects to `index.html` + href; otherwise it scrolls to the target's top minus 60, or does nothing without a target |
| `Routing.Directory` | script.js:153 | the directory a relative address resolves against: a prefix of the pathname that is empty or ends in `/`, with no `/` after it |
| `Routing.RedirectLandsOnHomePage` | script.js:151-153 | a redirect's address is `index.html` followed by the clicked `#` anchor, and the pathname it resolves to passes the home-page test |
| `Routing.RedirectLandingExamples` | script.js:153 | a redirect from `/projects.html` loads `/index.html`; one from `/site/projects.html` loads `/site/index.html` |
| `Routing.ScrollLandsInSection` | script.js:156-161 | scrolling to a section taller than 20 px puts the offset inside that section's span |
| `Modals.OpenModal` | script.js:183-188 | exactly the element whose id is the card's `data-project` becomes shown; nothing else changes; an unknown id changes nothing |
| `Modals.CloseModal` | script.js:191-195 | exactly the close control's enclosing modal becomes hidden; nothing else changes |
| `Modals.OnWindowClick` | script.js:198-202 | a modal is hidden only when it is the click target itself; every other display value is unchanged |
| `Modals.OpenFindsModal` | script.js:185-186 | when a modal's id is unique, the card naming it opens that modal |
| `Modals.CloseFindsEnclosingModal` | script.js:193 | a close control finds the modal that encloses it most closely, also when that modal sits inside another modal |

## Left out

- Parallax (script.js:26-31): a floating-point product `scrollY * 0.1` written into a CSS transform string. It has no decision logic.
- Tilt effect (script.js:37-54): floating-point division and CSS string building. It divides by zero on a card of zero width or height.
- The 20% intersection threshold: the browser computes it, and the model takes `isIntersecting` as an input.
- Timers firing: the model records each staggered addition but does not run it. It also leaves out the race in which an element leaves the viewport before its delayed addition fires.
- Element lookup, listener registration, navigation and scrolling: DOM querying, event-listener registration, the `window.location.href` assignment and the smooth-scroll animation are host I/O. The click decision is returned as a `ClickOutcome` value instead.
- `RouteClick` takes the anchored element's top as an input. `querySelector` throws on an anchor that is not a valid selector, such as `"#"`. The default action is already prevented by then, so that case is modelled as "no target" (`Suppressed`), which has the same visible effect.
- `scrollY` is modelled as an integer. Browsers can report fractional offsets.
- A missing `.footer` element makes `footerObserver.observe(null)` throw at load time (script.js:116), which stops every setup step after it. A missing `.pill-nav` is looked up inside the scroll listener (script.js:79), so it makes every scroll event throw in that listener and stops nothing at load. Neither failure is modelled: each handler is modelled on its own, with its elements present.
- A project card without `data-project` makes the script look up the id `"null"`. The model takes the id string as given.
- The home-page test only selects whether the scroll listener is installed and run once at load (script.js:169-172); that wiring is not modelled. The test itself is `ActiveLink.IsHomePage`.
