/** The multi-select and confirm-delete controller shared by the journal,
    prayer, card, note and small-group pages. */
module Selection {
  import opened Lists
  import opened Keyed

  /** `isSelectMode`, `selectedIds`, `itemsToDelete` and `showConfirmation`. */
  datatype Selection = Selection(selectMode: bool, selected: set<string>, staged: set<string>, confirming: bool)

  /** The state every page starts in and returns to after a delete. */
  const Idle := Selection(false, {}, {}, false)

  /** The "multi-select" button. */
  function EnterSelectMode(s: Selection): (r: Selection)
    ensures r.selectMode && r.selected == s.selected
    ensures r.staged == s.staged && r.confirming == s.confirming
  {
    s.(selectMode := true)
  }

  /** Clicking an item in select mode: its id joins the selection, or leaves it. */
  function ToggleSelected(s: Selection, id: string): (r: Selection)
    ensures id in r.selected <==> id !in s.selected
    ensures forall other :: other != id ==> (other in r.selected <==> other in s.selected)
    ensures r.selectMode == s.selectMode && r.staged == s.staged && r.confirming == s.confirming
  {
    s.(selected := if id in s.selected then s.selected - {id} else s.selected + {id})
  }

  /** Selecting the same item twice restores the selection. */
  lemma ToggleSelectedTwice(s: Selection, id: string)
    ensures ToggleSelected(ToggleSelected(s, id), id) == s
  {
    var r := ToggleSelected(ToggleSelected(s, id), id);
    assert r.selected == s.selected;
  }

  /** The "cancel" button of select mode: leaves it and forgets the selection. */
  function ExitSelectMode(s: Selection): (r: Selection)
    ensures !r.selectMode && r.selected == {}
    ensures r.staged == s.staged && r.confirming == s.confirming
  {
    s.(selectMode := false, selected := {})
  }

  /** `handleDeleteRequest`: an empty id set is ignored; otherwise the ids are
      staged and the confirmation opens. */
  function RequestDelete(s: Selection, ids: set<string>): (r: Selection)
    ensures ids == {} ==> r == s
    ensures ids != {} ==> r.staged == ids && r.confirming
    ensures r.selectMode == s.selectMode && r.selected == s.selected
  {
    if ids == {} then s else s.(staged := ids, confirming := true)
  }

  /** `handleCancelDelete` on the journal and prayer pages: the staged ids
      are dropped and the confirmation closes. */
  function CancelDelete(s: Selection): (r: Selection)
    ensures !r.confirming && r.staged == {}
    ensures r.selectMode == s.selectMode && r.selected == s.selected
  {
    s.(staged := {}, confirming := false)
  }

  /** The modal cancel of the card, note and small-group pages
      (`() => setShowConfirmation(false)`) only closes the confirmation. */
  function CloseConfirmation(s: Selection): (r: Selection)
    ensures !r.confirming && r.staged == s.staged
    ensures r.selectMode == s.selectMode && r.selected == s.selected
  {
    s.(confirming := false)
  }

  /** The two cancel variants differ only in ids that the next confirmation
      can never see: any later request overwrites them. */
  lemma CancelVariantsAgree(s: Selection, ids: set<string>)
    requires ids != {}
    ensures RequestDelete(CancelDelete(s), ids) == RequestDelete(CloseConfirmation(s), ids)
  {
  }

  /** `handleConfirmDelete` on the prayer, card, note and small-group pages:
      the staged items go, everything else stays in order, and the page
      leaves select mode. The prayer and card pages skip the filter for an
      empty staged set; the filter would change nothing, so one definition
      serves all four. */
  function ConfirmDelete<T(!new)>(items: seq<T>, s: Selection, idOf: T -> string): (r: (seq<T>, Selection))
    ensures forall x :: x in r.0 <==> x in items && idOf(x) !in s.staged
    ensures s.staged == {} ==> r.0 == items
    ensures UniqueIds(items, idOf) ==> UniqueIds(r.0, idOf)
    ensures SubsequenceOf(r.0, items)
    ensures r.1 == Idle
  {
    (RemoveIds(items, s.staged, idOf), Idle)
  }

  /** Deleting a single item through its own delete button removes exactly
      that id. */
  lemma DeleteOne<T(!new)>(items: seq<T>, s: Selection, id: string, idOf: T -> string)
    ensures var r := ConfirmDelete(items, RequestDelete(s, {id}), idOf).0;
      !HasId(r, id, idOf) && forall x :: x in items && idOf(x) != id ==> x in r
  {
  }
}
