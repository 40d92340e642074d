/**
 * The five viewport watchers of the page. Each callback receives one batch of
 * entries (the element and whether it now intersects the viewport; the 20%
 * threshold is decided by the browser) and updates class lists, schedules a
 * delayed class addition, or stops watching an element.
 *
 * Every callback is a loop over the batch; each is proved equal to a function
 * of the old state and the batch, and every such function states what the
 * batch means for each element.
 */
module Reveal {
  import opened Dom

  const VISIBLE := "visible"
  const VISIBLE_CERT := "visible-cert"
  const SKILL_VISIBLE := "skill-visible"
  const FOOTER_VISIBLE := "footer-visible"
  const VISIBLE_CONTACT := "visible-contact"

  /** Milliseconds between consecutive staggered additions within one batch. */
  const SKILL_STAGGER: nat := 120
  const CONTACT_STAGGER: nat := 150

  datatype Entry = Entry(target: Element, isIntersecting: bool)

  /** The `isIntersecting` of the last entry of the batch for `e`, if any. */
  function LastEntry(entries: seq<Entry>, e: Element): (r: Option<bool>)
    ensures r.None? <==> forall i :: 0 <= i < |entries| ==> entries[i].target != e
    ensures r.Some? ==> exists i :: 0 <= i < |entries| && entries[i].target == e
                          && entries[i].isIntersecting == r.value
                          && forall j :: i < j < |entries| ==> entries[j].target != e
    decreases |entries|
  {
    if entries == [] then None
    else
      var n := |entries| - 1;
      if entries[n].target == e then Some(entries[n].isIntersecting)
      else LastEntry(entries[..n], e)
  }

  /** The targets of the entries whose `isIntersecting` equals `intersecting`. */
  function TargetsWith(entries: seq<Entry>, intersecting: bool): (r: set<Element>)
    ensures forall e :: e in r <==>
      exists i :: 0 <= i < |entries| && entries[i].target == e && entries[i].isIntersecting == intersecting
    decreases |entries|
  {
    if entries == [] then {}
    else
      var n := |entries| - 1;
      var earlier := TargetsWith(entries[..n], intersecting);
      assert forall i :: 0 <= i < n ==> entries[..n][i] == entries[i];
      if entries[n].isIntersecting == intersecting then earlier + {entries[n].target} else earlier
  }

  /**
   * The class lists after an add-on-enter, remove-on-exit batch for class
   * `cls`: each element of the batch ends with `cls` exactly when its last
   * entry intersects, no other class changes, and elements outside the batch
   * keep their class lists.
   */
  function ApplyToggles(m: ClassMap, entries: seq<Entry>, cls: string): (r: ClassMap)
    ensures forall e :: ClassesIn(r, e) - {cls} == ClassesIn(m, e) - {cls}
    ensures forall e :: LastEntry(entries, e).None? ==> ClassesIn(r, e) == ClassesIn(m, e)
    ensures forall e :: LastEntry(entries, e).Some? ==> (cls in ClassesIn(r, e) <==> LastEntry(entries, e).value)
    decreases |entries|
  {
    if entries == [] then m
    else
      var n := |entries| - 1;
      var prev := ApplyToggles(m, entries[..n], cls);
      var x := entries[n];
      prev[x.target := Toggle(ClassesIn(prev, x.target), cls, x.isIntersecting)]
  }

  /**
   * The class lists after the skill batch's immediate part: `cls` is removed
   * from every element that has a non-intersecting entry, and nothing else changes.
   */
  function RemoveOnExit(m: ClassMap, entries: seq<Entry>, cls: string): (r: ClassMap)
    ensures forall e :: ClassesIn(r, e) == (if e in TargetsWith(entries, false)
                                            then ClassesIn(m, e) - {cls} else ClassesIn(m, e))
    decreases |entries|
  {
    if entries == [] then m
    else
      var n := |entries| - 1;
      var prev := RemoveOnExit(m, entries[..n], cls);
      var x := entries[n];
      if x.isIntersecting then prev else prev[x.target := ClassesIn(prev, x.target) - {cls}]
  }

  /**
   * The timers a staggered batch schedules, in batch order: one addition of
   * `cls` per intersecting entry, delayed by the entry's index in the batch
   * times `step`. Non-intersecting entries schedule nothing.
   */
  function Staggered(entries: seq<Entry>, cls: string, step: nat): (r: seq<Scheduled>)
    ensures |r| <= |entries|
    ensures forall k :: 0 <= k < |r| ==> (r[k].className == cls &&
      exists i :: 0 <= i < |entries| && entries[i].isIntersecting
                  && r[k].target == entries[i].target && r[k].delay == i * step)
    ensures forall i :: 0 <= i < |entries| && entries[i].isIntersecting ==>
      Scheduled(entries[i].target, cls, i * step) in r
    decreases |entries|
  {
    if entries == [] then []
    else
      var n := |entries| - 1;
      var prev := Staggered(entries[..n], cls, step);
      assert forall i :: 0 <= i < n ==> entries[..n][i] == entries[i];
      if entries[n].isIntersecting then prev + [Scheduled(entries[n].target, cls, n * step)] else prev
  }

  /**
   * The staggered timers come out in batch order: with a positive step each
   * delay is strictly larger than the one before it, so the additions fire in
   * the order the entries were delivered.
   */
  lemma {:induction false} StaggeredInBatchOrder(entries: seq<Entry>, cls: string, step: nat)
    requires step > 0
    ensures InOrder(Staggered(entries, cls, step))
    decreases |entries|
  {
    if entries != [] {
      var n := |entries| - 1;
      StaggeredInBatchOrder(entries[..n], cls, step);
      if entries[n].isIntersecting {
        var prev := Staggered(entries[..n], cls, step);
        StaggeredBefore(entries[..n], cls, step, n);
        AppendInOrder(prev, Scheduled(entries[n].target, cls, n * step));
      }
    }
  }

  ghost predicate InOrder(r: seq<Scheduled>) {
    forall j, k :: 0 <= j < k < |r| ==> r[j].delay < r[k].delay
  }

  ghost predicate AllBefore(r: seq<Scheduled>, bound: nat) {
    forall k :: 0 <= k < |r| ==> r[k].delay < bound
  }

  lemma AppendInOrder(prev: seq<Scheduled>, x: Scheduled)
    requires InOrder(prev) && AllBefore(prev, x.delay)
    ensures InOrder(prev + [x])
  {
    var r := prev + [x];
    forall j, k | 0 <= j < k < |r| ensures r[j].delay < r[k].delay {
      assert r[j] == prev[j];
      if k < |prev| {
        assert r[k] == prev[k];
      }
    }
  }

  /** Every delay of a batch's timers is below the batch length times the step. */
  lemma StaggeredBefore(entries: seq<Entry>, cls: string, step: nat, n: nat)
    requires step > 0 && n == |entries|
    ensures AllBefore(Staggered(entries, cls, step), n * step)
  {
    var r := Staggered(entries, cls, step);
    forall k | 0 <= k < |r| ensures r[k].delay < n * step {
      var i :| 0 <= i < n && r[k].delay == i * step;
      EarlierIndexEarlierDelay(i, n, step);
    }
  }

  lemma {:induction false} EarlierIndexEarlierDelay(i: nat, n: nat, step: nat)
    requires i < n && step > 0
    ensures i * step < n * step
    decreases n - i
  {
    assert (i + 1) * step == i * step + step;
    if i + 1 < n {
      EarlierIndexEarlierDelay(i + 1, n, step);
    }
  }

  /**
   * The class lists after a footer batch: the footer gains `footer-visible`
   * when some entry of the batch intersects; no class is ever removed.
   */
  function FooterClasses(m: ClassMap, footer: Element, entries: seq<Entry>): (r: ClassMap)
    ensures forall e :: ClassesIn(r, e) == (if e == footer && TargetsWith(entries, true) != {}
                                            then ClassesIn(m, e) + {FOOTER_VISIBLE} else ClassesIn(m, e))
    decreases |entries|
  {
    if entries == [] then m
    else
      var n := |entries| - 1;
      var prev := FooterClasses(m, footer, entries[..n]);
      assert entries[n].isIntersecting ==> entries[n].target in TargetsWith(entries, true);
      if entries[n].isIntersecting then prev[footer := ClassesIn(prev, footer) + {FOOTER_VISIBLE}] else prev
  }

  /** The entries the browser delivers to a watcher: those whose target it observes. */
  function Delivered(observed: set<Element>, entries: seq<Entry>): (r: seq<Entry>)
    ensures |r| <= |entries|
    ensures forall x :: x in r <==> x in entries && x.target in observed
    decreases |entries|
  {
    if entries == [] then []
    else
      var n := |entries| - 1;
      var prev := Delivered(observed, entries[..n]);
      assert forall i :: 0 <= i < n ==> entries[..n][i] == entries[i];
      if entries[n].target in observed then prev + [entries[n]] else prev
  }

  /**
   * The footer watcher is one-shot: it observes only the footer, and once a
   * delivered batch has reached the footer, the footer carries
   * `footer-visible`, is no longer observed, and every later batch leaves the
   * class lists as they are.
   */
  lemma FooterOneShot(m: ClassMap, footer: Element, first: seq<Entry>, later: seq<Entry>)
    requires TargetsWith(Delivered({footer}, first), true) != {}
    ensures var batch := Delivered({footer}, first);
            var after := FooterClasses(m, footer, batch);
            var observed := {footer} - TargetsWith(batch, true);
            && FOOTER_VISIBLE in ClassesIn(after, footer)
            && observed == {}
            && Delivered(observed, later) == []
            && FooterClasses(after, footer, Delivered(observed, later)) == after
  {
    EnteredOnlyObserved({footer}, first);
    NothingDelivered(later);
  }

  /** Whatever enters in a delivered batch is an observed element. */
  lemma EnteredOnlyObserved(observed: set<Element>, entries: seq<Entry>)
    ensures TargetsWith(Delivered(observed, entries), true) <= observed
  {
    var batch := Delivered(observed, entries);
    forall e | e in TargetsWith(batch, true) ensures e in observed {
      var i :| 0 <= i < |batch| && batch[i].target == e && batch[i].isIntersecting;
      assert batch[i] in batch;
    }
  }

  /** A watcher that observes nothing receives no entries. */
  lemma NothingDelivered(entries: seq<Entry>)
    ensures Delivered({}, entries) == []
  {
  }

  /** A watcher's set of observed elements. */
  class Observer {
    var observed: set<Element>

    constructor (targets: set<Element>)
      ensures observed == targets
    {
      observed := targets;
    }

    /** `observer.unobserve(e)` */
    method Unobserve(e: Element)
      modifies this
      ensures observed == old(observed) - {e}
    {
      observed := observed - {e};
    }
  }

  /** The callback shared by the two add-on-enter, remove-on-exit watchers. */
  method ToggleCallback(page: Page, entries: seq<Entry>, cls: string)
    modifies page
    ensures page.classes == ApplyToggles(old(page.classes), entries, cls)
    ensures page.display == old(page.display) && page.pending == old(page.pending)
  {
    for i := 0 to |entries|
      invariant page.classes == ApplyToggles(old(page.classes), entries[..i], cls)
      invariant page.display == old(page.display) && page.pending == old(page.pending)
    {
      var entry := entries[i];
      if entry.isIntersecting {
        page.Add(entry.target, cls);
      } else {
        page.Remove(entry.target, cls);
      }
      assert entries[..i + 1][..i] == entries[..i];
    }
    assert entries[..|entries|] == entries;
  }

  /** Rows, skill and experience cards, about image and text: `visible`. */
  method ProjectCallback(page: Page, entries: seq<Entry>)
    modifies page
    ensures page.classes == ApplyToggles(old(page.classes), entries, VISIBLE)
    ensures page.display == old(page.display) && page.pending == old(page.pending)
  {
    ToggleCallback(page, entries, VISIBLE);
  }

  /** Certification cards: `visible-cert`. */
  method CertCallback(page: Page, entries: seq<Entry>)
    modifies page
    ensures page.classes == ApplyToggles(old(page.classes), entries, VISIBLE_CERT)
    ensures page.display == old(page.display) && page.pending == old(page.pending)
  {
    ToggleCallback(page, entries, VISIBLE_CERT);
  }

  /**
   * Skill cards: an intersecting entry at index i schedules the addition of
   * `skill-visible` after i * 120 ms; a non-intersecting one removes it at once.
   */
  method SkillCallback(page: Page, entries: seq<Entry>)
    modifies page
    ensures page.classes == RemoveOnExit(old(page.classes), entries, SKILL_VISIBLE)
    ensures page.pending == old(page.pending) + Staggered(entries, SKILL_VISIBLE, SKILL_STAGGER)
    ensures page.display == old(page.display)
  {
    for index := 0 to |entries|
      invariant page.classes == RemoveOnExit(old(page.classes), entries[..index], SKILL_VISIBLE)
      invariant page.pending == old(page.pending) + Staggered(entries[..index], SKILL_VISIBLE, SKILL_STAGGER)
      invariant page.display == old(page.display)
    {
      var entry := entries[index];
      if entry.isIntersecting {
        page.SetTimeout(Scheduled(entry.target, SKILL_VISIBLE, index * SKILL_STAGGER));
      } else {
        page.Remove(entry.target, SKILL_VISIBLE);
      }
      assert entries[..index + 1][..index] == entries[..index];
    }
    assert entries[..|entries|] == entries;
  }

  /**
   * The footer: any intersecting entry adds `footer-visible` to the footer and
   * stops observing that entry's target.
   */
  method FooterCallback(page: Page, observer: Observer, footer: Element, entries: seq<Entry>)
    modifies page, observer
    ensures page.classes == FooterClasses(old(page.classes), footer, entries)
    ensures observer.observed == old(observer.observed) - TargetsWith(entries, true)
    ensures page.display == old(page.display) && page.pending == old(page.pending)
  {
    for i := 0 to |entries|
      invariant page.classes == FooterClasses(old(page.classes), footer, entries[..i])
      invariant observer.observed == old(observer.observed) - TargetsWith(entries[..i], true)
      invariant page.display == old(page.display) && page.pending == old(page.pending)
    {
      var entry := entries[i];
      if entry.isIntersecting {
        page.Add(footer, FOOTER_VISIBLE);
        observer.Unobserve(entry.target);
      }
      assert entries[..i + 1][..i] == entries[..i];
    }
    assert entries[..|entries|] == entries;
  }

  /**
   * Contact icons and links: an intersecting entry at index i schedules the
   * addition of `visible-contact` after i * 150 ms; nothing is ever removed.
   */
  method ContactCallback(page: Page, entries: seq<Entry>)
    modifies page
    ensures page.pending == old(page.pending) + Staggered(entries, VISIBLE_CONTACT, CONTACT_STAGGER)
    ensures page.classes == old(page.classes) && page.display == old(page.display)
  {
    for index := 0 to |entries|
      invariant page.pending == old(page.pending) + Staggered(entries[..index], VISIBLE_CONTACT, CONTACT_STAGGER)
      invariant page.classes == old(page.classes) && page.display == old(page.display)
    {
      var entry := entries[index];
      if entry.isIntersecting {
        page.SetTimeout(Scheduled(entry.target, VISIBLE_CONTACT, index * CONTACT_STAGGER));
      }
      assert entries[..index + 1][..index] == entries[..index];
    }
    assert entries[..|entries|] == entries;
  }
}
