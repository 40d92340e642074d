/**
 * An abstract model of the parts of a browser page that the portfolio
 * script reads and writes: elements are indices in tree order, every element
 * has a set of CSS class names and possibly an inline `display` value, and
 * the window keeps a list of `setTimeout` callbacks that add a class later.
 */
module Dom {

  datatype Option<T> = None | Some(value: T)

  /** An element of the document, identified by its position in tree order. */
  type Element = nat

  /** The class list of every element; an element without a key has no class. */
  type ClassMap = map<Element, set<string>>

  /** The inline `style.display` value the script writes on modals. */
  datatype Display = Shown | Hidden

  /** A `setTimeout(() => target.classList.add(className), delay)` not yet fired. */
  datatype Scheduled = Scheduled(target: Element, className: string, delay: nat)

  /**
   * The static structure of the document: the `id` attribute of every element
   * ("" when it has none) and the index of its parent (-1 for the root).
   * In tree order a parent always comes before its children.
   */
  datatype Tree = Tree(ids: seq<string>, parent: seq<int>)

  predicate ValidTree(t: Tree) {
    && |t.ids| == |t.parent|
    && forall e :: 0 <= e < |t.parent| ==> -1 <= t.parent[e] < e
  }

  function ClassesIn(m: ClassMap, e: Element): set<string> {
    if e in m then m[e] else {}
  }

  /** `classList.toggle(token, force)`: the token is present exactly when `force` holds. */
  function Toggle(c: set<string>, token: string, force: bool): (r: set<string>)
    ensures token in r <==> force
    ensures r - {token} == c - {token}
  {
    if force then c + {token} else c - {token}
  }

  /** `a` is `e` itself or one of its ancestors. */
  ghost predicate InclusiveAncestor(t: Tree, a: Element, e: Element)
    requires ValidTree(t) && e < |t.parent|
    decreases e
  {
    a == e || (0 <= t.parent[e] && InclusiveAncestor(t, a, t.parent[e]))
  }

  /**
   * `document.getElementById(id)`: the first element in tree order whose id
   * is `id`; the empty string is never an element's id.
   */
  function ElementById(ids: seq<string>, id: string): (r: Option<Element>)
    ensures r.Some? ==> r.value < |ids| && id != "" && ids[r.value] == id
    ensures r.Some? ==> forall j :: 0 <= j < r.value ==> ids[j] != id
    ensures r.None? <==> id == "" || forall j :: 0 <= j < |ids| ==> ids[j] != id
  {
    if id == "" then None else FirstWithId(ids, id)
  }

  function FirstWithId(ids: seq<string>, id: string): (r: Option<Element>)
    ensures r.Some? ==> r.value < |ids| && ids[r.value] == id
    ensures r.Some? ==> forall j :: 0 <= j < r.value ==> ids[j] != id
    ensures r.None? <==> forall j :: 0 <= j < |ids| ==> ids[j] != id
    decreases |ids|
  {
    if ids == [] then None
    else
      var n := |ids| - 1;
      match FirstWithId(ids[..n], id)
      case Some(e) => Some(e)
      case None => if ids[n] == id then Some(n) else None
  }

  /**
   * `e.closest("." + cls)`: the nearest inclusive ancestor of `e` that
   * carries the class `cls`, or none.
   */
  function Closest(t: Tree, m: ClassMap, e: Element, cls: string): (r: Option<Element>)
    requires ValidTree(t) && e < |t.parent|
    ensures r.Some? ==> r.value <= e && cls in ClassesIn(m, r.value) && InclusiveAncestor(t, r.value, e)
    ensures r.Some? ==> forall a :: InclusiveAncestor(t, a, e) && cls in ClassesIn(m, a) ==> InclusiveAncestor(t, a, r.value)
    ensures r.None? ==> forall a :: InclusiveAncestor(t, a, e) ==> cls !in ClassesIn(m, a)
    decreases e
  {
    if cls in ClassesIn(m, e) then Some(e)
    else if t.parent[e] < 0 then None
    else Closest(t, m, t.parent[e], cls)
  }

  /** The mutable state of one page: class lists, inline display values and pending timers. */
  class Page {
    const tree: Tree
    var classes: ClassMap
    var display: map<Element, Display>
    var pending: seq<Scheduled>

    constructor (tree: Tree, classes: ClassMap)
      ensures this.tree == tree && this.classes == classes
      ensures display == map[] && pending == []
    {
      this.tree := tree;
      this.classes := classes;
      display := map[];
      pending := [];
    }

    function ClassesOf(e: Element): set<string>
      reads this
    {
      ClassesIn(classes, e)
    }

    /** `e.classList.add(token)` */
    method Add(e: Element, token: string)
      modifies this
      ensures classes == old(classes)[e := old(ClassesOf(e)) + {token}]
      ensures display == old(display) && pending == old(pending)
    {
      classes := classes[e := ClassesOf(e) + {token}];
    }

    /** `e.classList.remove(token)` */
    method Remove(e: Element, token: string)
      modifies this
      ensures classes == old(classes)[e := old(ClassesOf(e)) - {token}]
      ensures display == old(display) && pending == old(pending)
    {
      classes := classes[e := ClassesOf(e) - {token}];
    }

    /** `e.classList.toggle(token, force)` */
    method ToggleClass(e: Element, token: string, force: bool)
      modifies this
      ensures classes == old(classes)[e := Toggle(old(ClassesOf(e)), token, force)]
      ensures display == old(display) && pending == old(pending)
    {
      classes := classes[e := Toggle(ClassesOf(e), token, force)];
    }

    /** `e.style.display = "block"` (Shown) or `"none"` (Hidden) */
    method SetDisplay(e: Element, d: Display)
      modifies this
      ensures display == old(display)[e := d]
      ensures classes == old(classes) && pending == old(pending)
    {
      display := display[e := d];
    }

    /** `setTimeout(...)` of a deferred class addition: it is queued, not run. */
    method SetTimeout(s: Scheduled)
      modifies this
      ensures pending == old(pending) + [s]
      ensures classes == old(classes) && display == old(display)
    {
      pending := pending + [s];
    }
  }
}
