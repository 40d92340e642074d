/** The navigation bar's `scrolled` style, recomputed on every scroll event. */
module Navbar {
  import opened Dom

  const SCROLLED := "scrolled"

  /** Scroll offset, in pixels, beyond which the bar takes its scrolled style. */
  const SCROLL_THRESHOLD := 30

  predicate IsScrolled(scrollY: int) {
    scrollY > SCROLL_THRESHOLD
  }

  /** The scroll listener's `nav.classList.toggle("scrolled", scrollY > 30)`. */
  method OnScroll(page: Page, nav: Element, scrollY: int)
    modifies page
    ensures page.classes == old(page.classes)[nav := Toggle(old(page.ClassesOf(nav)), SCROLLED, IsScrolled(scrollY))]
    ensures SCROLLED in page.ClassesOf(nav) <==> scrollY > 30
    ensures page.ClassesOf(nav) - {SCROLLED} == old(page.ClassesOf(nav)) - {SCROLLED}
    ensures page.display == old(page.display) && page.pending == old(page.pending)
  {
    page.ToggleClass(nav, SCROLLED, IsScrolled(scrollY));
  }

  /**
   * The style is a function of the offset alone: whatever two class lists the
   * bar had before, after a scroll to the same offset both carry `scrolled`
   * or neither does, and they carry it exactly when the offset exceeds 30.
   */
  lemma ScrolledIsHistoryFree(before1: set<string>, before2: set<string>, scrollY: int)
    ensures (SCROLLED in Toggle(before1, SCROLLED, IsScrolled(scrollY)))
        == (SCROLLED in Toggle(before2, SCROLLED, IsScrolled(scrollY)))
    ensures SCROLLED in Toggle(before1, SCROLLED, IsScrolled(scrollY)) <==> scrollY > 30
  {
  }
}
