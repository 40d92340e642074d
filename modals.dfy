/**
 * Project modals. A project card opens the element whose id is its
 * `data-project`; a close control hides the modal that encloses it; a click
 * whose target is a modal itself (its backdrop, not its content) hides it.
 */
module Modals {
  import opened Dom

  const MODAL := "modal"

  /**
   * A card click: `document.getElementById(projectId).style.display = "block"`.
   * When no element has that id the handler fails before writing anything.
   */
  method OpenModal(page: Page, projectId: string)
    modifies page
    ensures page.display == match ElementById(page.tree.ids, projectId)
                            case Some(e) => old(page.display)[e := Shown]
                            case None => old(page.display)
    ensures page.classes == old(page.classes) && page.pending == old(page.pending)
  {
    var target := ElementById(page.tree.ids, projectId);
    if target.Some? {
      page.SetDisplay(target.value, Shown);
    }
  }

  /**
   * A close-control click: `close.closest(".modal").style.display = "none"`.
   * When no enclosing element is a modal the handler fails before writing.
   */
  method CloseModal(page: Page, close: Element)
    requires ValidTree(page.tree) && close < |page.tree.parent|
    modifies page
    ensures page.display == match Closest(page.tree, old(page.classes), close, MODAL)
                            case Some(e) => old(page.display)[e := Hidden]
                            case None => old(page.display)
    ensures page.classes == old(page.classes) && page.pending == old(page.pending)
  {
    var modal := Closest(page.tree, page.classes, close, MODAL);
    if modal.Some? {
      page.SetDisplay(modal.value, Hidden);
    }
  }

  /**
   * A click anywhere on the window: every modal that is itself the click
   * target is hidden; clicks inside a modal's content hide nothing.
   */
  method OnWindowClick(page: Page, modals: seq<Element>, target: Element)
    modifies page
    ensures page.display == if target in modals then old(page.display)[target := Hidden] else old(page.display)
    ensures page.classes == old(page.classes) && page.pending == old(page.pending)
  {
    for i := 0 to |modals|
      invariant page.display == if target in modals[..i] then old(page.display)[target := Hidden] else old(page.display)
      invariant page.classes == old(page.classes) && page.pending == old(page.pending)
    {
      var modal := modals[i];
      if target == modal {
        page.SetDisplay(modal, Hidden);
      }
      assert modals[..i + 1] == modals[..i] + [modal];
    }
    assert modals[..|modals|] == modals;
  }

  /**
   * The card whose `data-project` is a modal's id opens exactly that modal:
   * the first element carrying the id, and no element before it.
   */
  lemma OpenFindsModal(ids: seq<string>, modal: Element)
    requires modal < |ids| && ids[modal] != ""
    requires forall j :: 0 <= j < |ids| && j != modal ==> ids[j] != ids[modal]
    ensures ElementById(ids, ids[modal]) == Some(modal)
  {
  }

  /**
   * A close control finds the modal that encloses it most closely: every
   * other modal above the control also lies above that modal, so nested
   * modals are allowed.
   */
  lemma CloseFindsEnclosingModal(t: Tree, m: ClassMap, close: Element, modal: Element)
    requires ValidTree(t) && close < |t.parent| && modal < |t.parent|
    requires MODAL in ClassesIn(m, modal) && InclusiveAncestor(t, modal, close)
    requires forall a :: InclusiveAncestor(t, a, close) && MODAL in ClassesIn(m, a) ==> InclusiveAncestor(t, a, modal)
    ensures Closest(t, m, close, MODAL) == Some(modal)
  {
    var found := Closest(t, m, close, MODAL);
    assert found.Some?;
    AncestorNotBelow(t, found.value, modal);
    AncestorNotBelow(t, modal, found.value);
  }

  /** An inclusive ancestor never comes after its descendant in tree order. */
  lemma {:induction false} AncestorNotBelow(t: Tree, a: Element, e: Element)
    requires ValidTree(t) && e < |t.parent|
    ensures InclusiveAncestor(t, a, e) ==> a <= e
    decreases e
  {
    if a != e && 0 <= t.parent[e] {
      AncestorNotBelow(t, a, t.parent[e]);
    }
  }
}
