/**
 * Active navigation link: on every scroll of the home page the script finds
 * the section whose vertical span holds the scroll offset and marks the
 * navigation links that point at it with the class `active`.
 */
module ActiveLink {
  import opened Dom
  import opened Strings

  const ACTIVE := "active"

  /** Height, in pixels, of the fixed header that a section's top is shifted by. */
  const HEADER_ALLOWANCE := 80

  /** A watched section: its `id` attribute and its layout offsets. */
  datatype Section = Section(id: string, offsetTop: int, offsetHeight: int)

  /** A navigation link: its element and its `href` attribute. */
  datatype Link = Link(element: Element, href: string)

  /** The offset lies in the section's span `[offsetTop - 80, offsetTop - 80 + offsetHeight)`. */
  predicate Covers(s: Section, scrollY: int) {
    var sectionTop := s.offsetTop - HEADER_ALLOWANCE;
    sectionTop <= scrollY < sectionTop + s.offsetHeight
  }

  /** The index of the last section, in document order, that covers the offset. */
  function LastCovering(sections: seq<Section>, scrollY: int): (r: Option<nat>)
    ensures r.Some? ==> r.value < |sections| && Covers(sections[r.value], scrollY)
    ensures r.Some? ==> forall j :: r.value < j < |sections| ==> !Covers(sections[j], scrollY)
    ensures r.None? <==> forall j :: 0 <= j < |sections| ==> !Covers(sections[j], scrollY)
    decreases |sections|
  {
    if sections == [] then None
    else
      var n := |sections| - 1;
      if Covers(sections[n], scrollY) then Some(n)
      else LastCovering(sections[..n], scrollY)
  }

  /** The id of the current section, "" when no section covers the offset. */
  function CurrentId(sections: seq<Section>, scrollY: int): string {
    match LastCovering(sections, scrollY)
    case None => ""
    case Some(k) => sections[k].id
  }

  /** The first loop of `updateActiveLink`: walk the sections and keep the last match. */
  method FindCurrent(sections: seq<Section>, scrollY: int) returns (current: string)
    ensures current == CurrentId(sections, scrollY)
  {
    current := "";
    for i := 0 to |sections|
      invariant current == CurrentId(sections[..i], scrollY)
    {
      var sectionTop := sections[i].offsetTop - HEADER_ALLOWANCE;
      var sectionHeight := sections[i].offsetHeight;
      if scrollY >= sectionTop && scrollY < sectionTop + sectionHeight {
        current := sections[i].id;
      }
      assert sections[..i + 1][..i] == sections[..i];
    }
    assert sections[..|sections|] == sections;
  }

  /** An element's `href` attribute is one value, however often the element is listed. */
  predicate ConsistentLinks(links: seq<Link>) {
    forall i, j :: 0 <= i < |links| && 0 <= j < |links| && links[i].element == links[j].element
      ==> links[i].href == links[j].href
  }

  /** The elements of the navigation links. */
  function LinkElements(links: seq<Link>): (r: set<Element>)
    ensures forall e :: e in r <==> exists i :: 0 <= i < |links| && links[i].element == e
    decreases |links|
  {
    if links == [] then {}
    else
      var n := |links| - 1;
      assert forall i :: 0 <= i < n ==> links[..n][i] == links[i];
      LinkElements(links[..n]) + {links[n].element}
  }

  /**
   * The class lists after the second loop of `updateActiveLink` with target
   * `"#" + current`: only the links' elements change, and on them only the
   * class `active` (which links carry it is `HighlightedMarksTarget`).
   */
  function Highlighted(m: ClassMap, links: seq<Link>, target: string): (r: ClassMap)
    ensures r.Keys == m.Keys + LinkElements(links)
    ensures forall e :: ClassesIn(r, e) - {ACTIVE} == ClassesIn(m, e) - {ACTIVE}
    ensures forall e :: e !in LinkElements(links) ==> ClassesIn(r, e) == ClassesIn(m, e)
    decreases |links|
  {
    if links == [] then m
    else
      var n := |links| - 1;
      var prev := Highlighted(m, links[..n], target);
      var link := links[n];
      prev[link.element := Toggle(ClassesIn(prev, link.element), ACTIVE, link.href == target)]
  }

  /** After the update each link carries `active` exactly when its href is the target. */
  lemma HighlightedMarksTarget(m: ClassMap, links: seq<Link>, target: string)
    requires ConsistentLinks(links)
    ensures forall i :: 0 <= i < |links| ==>
      (ACTIVE in ClassesIn(Highlighted(m, links, target), links[i].element) <==> links[i].href == target)
  {
    forall i | 0 <= i < |links|
      ensures ACTIVE in ClassesIn(Highlighted(m, links, target), links[i].element) <==> links[i].href == target
    {
      MarksTargetAt(m, links, target, i);
    }
  }

  /**
   * One link at a time: the last toggle of a link's element decides whether it
   * carries `active`, and every listing of that element has the same href.
   */
  lemma {:induction false} MarksTargetAt(m: ClassMap, links: seq<Link>, target: string, i: nat)
    requires ConsistentLinks(links) && i < |links|
    ensures ACTIVE in ClassesIn(Highlighted(m, links, target), links[i].element) <==> links[i].href == target
    decreases |links|
  {
    var n := |links| - 1;
    if links[i].element == links[n].element {
      HighlightedLast(m, links, target);
      assert links[i].href == links[n].href;
    } else {
      var prefix := links[..n];
      assert prefix[i] == links[i];
      HighlightedOther(m, links, target, links[i].element);
      ConsistentPrefix(links, n);
      MarksTargetAt(m, prefix, target, i);
    }
  }

  /** The last link's element ends with its own toggle of `active`. */
  lemma HighlightedLast(m: ClassMap, links: seq<Link>, target: string)
    requires links != []
    ensures var n := |links| - 1;
            ClassesIn(Highlighted(m, links, target), links[n].element)
              == Toggle(ClassesIn(Highlighted(m, links[..n], target), links[n].element), ACTIVE, links[n].href == target)
  {
  }

  /** Any other element keeps the class list the earlier links left it with. */
  lemma HighlightedOther(m: ClassMap, links: seq<Link>, target: string, e: Element)
    requires links != [] && e != links[|links| - 1].element
    ensures ClassesIn(Highlighted(m, links, target), e) == ClassesIn(Highlighted(m, links[..|links| - 1], target), e)
  {
  }

  lemma ConsistentPrefix(links: seq<Link>, n: nat)
    requires ConsistentLinks(links) && n <= |links|
    ensures ConsistentLinks(links[..n])
  {
  }

  /** One more link processed: the class list of its element is toggled. */
  lemma HighlightedStep(m: ClassMap, links: seq<Link>, i: nat, target: string)
    requires i < |links|
    ensures var prev := Highlighted(m, links[..i], target);
            Highlighted(m, links[..i + 1], target)
              == prev[links[i].element := Toggle(ClassesIn(prev, links[i].element), ACTIVE, links[i].href == target)]
  {
    assert links[..i + 1][..i] == links[..i];
    assert links[..i + 1][i] == links[i];
  }

  /**
   * `updateActiveLink()`: the class lists afterwards equal `Highlighted` for
   * the target `"#" + CurrentId(...)`; nothing but class lists changes.
   */
  method UpdateActiveLink(page: Page, sections: seq<Section>, links: seq<Link>, scrollY: int)
    modifies page
    ensures page.classes == Highlighted(old(page.classes), links, "#" + CurrentId(sections, scrollY))
    ensures page.display == old(page.display) && page.pending == old(page.pending)
  {
    var current := FindCurrent(sections, scrollY);
    for i := 0 to |links|
      invariant page.classes == Highlighted(old(page.classes), links[..i], "#" + current)
      invariant page.display == old(page.display) && page.pending == old(page.pending)
    {
      var link := links[i];
      ghost var before := page.classes;
      ghost var c := ClassesIn(before, link.element);
      page.Remove(link.element, ACTIVE);
      if link.href == "#" + current {
        page.Add(link.element, ACTIVE);
        assert (c - {ACTIVE}) + {ACTIVE} == Toggle(c, ACTIVE, true);
      }
      assert page.classes == before[link.element := Toggle(c, ACTIVE, link.href == "#" + current)];
      HighlightedStep(old(page.classes), links, i, "#" + current);
    }
    assert links[..|links|] == links;
  }

  /**
   * Recomputing is idempotent: a second update with the same offset and
   * geometry leaves the class lists exactly as the first one left them.
   */
  lemma UpdateIsIdempotent(m: ClassMap, sections: seq<Section>, links: seq<Link>, scrollY: int)
    requires ConsistentLinks(links)
    ensures var target := "#" + CurrentId(sections, scrollY);
            Highlighted(Highlighted(m, links, target), links, target) == Highlighted(m, links, target)
  {
    var target := "#" + CurrentId(sections, scrollY);
    var once := Highlighted(m, links, target);
    var twice := Highlighted(once, links, target);
    assert twice.Keys == once.Keys;
    forall e | e in once ensures twice[e] == once[e] {
      IdempotentAt(m, links, target, e);
    }
  }

  lemma IdempotentAt(m: ClassMap, links: seq<Link>, target: string, e: Element)
    requires ConsistentLinks(links)
    ensures var once := Highlighted(m, links, target);
            ClassesIn(Highlighted(once, links, target), e) == ClassesIn(once, e)
  {
    var once := Highlighted(m, links, target);
    var a, b := ClassesIn(Highlighted(once, links, target), e), ClassesIn(once, e);
    if e in LinkElements(links) {
      var i :| 0 <= i < |links| && links[i].element == e;
      HighlightedMarksTarget(m, links, target);
      HighlightedMarksTarget(once, links, target);
      assert ACTIVE in a <==> ACTIVE in b;
    }
    SameButForToken(a, b, ACTIVE);
  }

  lemma SameButForToken(a: set<string>, b: set<string>, token: string)
    requires a - {token} == b - {token} && (token in a <==> token in b)
    ensures a == b
  {
    assert forall x :: x in a <==> x in b by {
      forall x ensures x in a <==> x in b {
        if x != token {
          assert x in a <==> x in a - {token};
          assert x in b <==> x in b - {token};
        }
      }
    }
  }

  /**
   * Which links end up active: those whose href is `"#"` followed by the id
   * of the last covering section, or, when no section covers the offset,
   * exactly those whose href is `"#"`.
   */
  lemma ActiveLinkFollowsSection(m: ClassMap, sections: seq<Section>, links: seq<Link>, scrollY: int, i: nat)
    requires ConsistentLinks(links) && i < |links|
    ensures var r := Highlighted(m, links, "#" + CurrentId(sections, scrollY));
            match LastCovering(sections, scrollY)
            case None => (ACTIVE in ClassesIn(r, links[i].element) <==> links[i].href == "#")
            case Some(k) => (ACTIVE in ClassesIn(r, links[i].element) <==> links[i].href == "#" + sections[k].id)
  {
    HighlightedMarksTarget(m, links, "#" + CurrentId(sections, scrollY));
    if LastCovering(sections, scrollY).None? {
      assert "#" + "" == "#";
    }
  }

  /**
   * With pairwise distinct hrefs, at most one navigation link is active
   * after an update.
   */
  lemma AtMostOneActive(m: ClassMap, links: seq<Link>, target: string, i: nat, j: nat)
    requires ConsistentLinks(links)
    requires forall a, b :: 0 <= a < b < |links| ==> links[a].href != links[b].href
    requires i < |links| && j < |links|
    ensures var r := Highlighted(m, links, target);
            (ACTIVE in ClassesIn(r, links[i].element) && ACTIVE in ClassesIn(r, links[j].element)) ==> i == j
  {
    HighlightedMarksTarget(m, links, target);
  }

  /** `pathname.includes("index.html") || pathname === "/"`: the page that tracks sections. */
  function IsHomePage(pathname: string): (r: bool)
    ensures r <==> pathname == "/" || exists i: nat :: OccursAt(pathname, "index.html", i)
  {
    Contains(pathname, "index.html") || pathname == "/"
  }

  /** Every path naming the home document, in any directory, is a home page. */
  lemma HomeDocumentIsHomePage(dir: string)
    ensures IsHomePage(dir + "index.html")
  {
    SuffixContained(dir, "index.html");
  }

  lemma HomePageExamples()
    ensures IsHomePage("/")
    ensures IsHomePage("/index.html")
    ensures IsHomePage("/site/index.html")
    ensures !IsHomePage("/projects.html")
    ensures !IsHomePage("")
  {
    PrefixContained("index.html", "");
    assert "/index.html" == "/" + "index.html";
    assert OccursAt("/index.html", "index.html", 1);
    assert OccursAt("/site/index.html", "index.html", 6);
    var p := "/projects.html";
    forall i: nat ensures !OccursAt(p, "index.html", i) {
      if i + 10 <= |p| {
        assert p[i..i + 10][0] == p[i];
        assert p[i] != 'i';
      }
    }
  }
}
