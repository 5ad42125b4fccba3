/** The top-level controller (src/App.tsx): its one piece of state is the
    selected business or none. A marker click selects that marker's
    business, closing the dialog clears the selection, and "next" moves to
    the catalog entry after the current one's id, wrapping around. */
module Selection {
  import opened Types
  import Detail
  import MapView

  /** `catalog.findIndex(b => b.id === id)`: the first index with that id, or -1. */
  function FindIndex(catalog: seq<Business>, id: string): (r: int)
    ensures -1 <= r < |catalog|
    ensures r >= 0 ==> catalog[r].id == id && forall j :: 0 <= j < r ==> catalog[j].id != id
    ensures r == -1 <==> forall j :: 0 <= j < |catalog| ==> catalog[j].id != id
  {
    if catalog == [] then -1
    else if catalog[0].id == id then 0
    else
      var k := FindIndex(catalog[1..], id);
      if k == -1 then -1 else k + 1
  }

  /** The selection after `handleNextBusiness`: unchanged without a selection;
      otherwise the entry at `(findIndex + 1) % length`. On an empty catalog
      that index is NaN and the entry read is `undefined`, a falsy selection. */
  function NextSelection(catalog: seq<Business>, selected: Option<Business>): (r: Option<Business>)
    ensures selected.None? ==> r == selected
    ensures selected.Some? && |catalog| > 0 ==> r.Some? && r.value in catalog
    ensures |catalog| == 0 ==> r.None?
  {
    if selected.None? then None
    else if |catalog| == 0 then None
    else Some(catalog[(FindIndex(catalog, selected.value.id) + 1) % |catalog|])
  }

  /** The cyclic successor of index `i` among `n` positions. */
  function Succ(i: nat, n: nat): (j: nat)
    requires i < n
    ensures j < n
  {
    if i + 1 < n then i + 1 else 0
  }

  lemma {:induction false} MulAtLeast(m: int, n: int)
    requires m >= 1 && n > 0
    ensures m * n >= n
  {
    if m > 1 {
      MulAtLeast(m - 1, n);
      assert m * n == (m - 1) * n + n;
    }
  }

  /** Euclidean remainder is determined by any quotient/remainder decomposition. */
  lemma DivModUnique(a: int, n: int, q: int, r: int)
    requires n > 0 && 0 <= r < n && a == q * n + r
    ensures a % n == r
  {
    var q', r' := a / n, a % n;
    assert (q - q') * n == r' - r;
    if q - q' >= 1 {
      MulAtLeast(q - q', n);
    } else if q' - q >= 1 {
      MulAtLeast(q' - q, n);
    }
  }

  /** The source's `(index + 1) % length` is the cyclic successor. */
  lemma SuccIsMod(i: nat, n: nat)
    requires i < n
    ensures Succ(i, n) == (i + 1) % n
  {
    if i + 1 < n {
      DivModUnique(i + 1, n, 0, i + 1);
    } else {
      DivModUnique(i + 1, n, 1, 0);
    }
  }

  /** With unique ids, "next" from entry `i` is entry `(i + 1) mod length`. */
  lemma NextFromIndex(catalog: seq<Business>, i: nat)
    requires UniqueIds(catalog)
    requires i < |catalog|
    ensures NextSelection(catalog, Some(catalog[i])) == Some(catalog[(i + 1) % |catalog|])
    ensures NextSelection(catalog, Some(catalog[i])) == Some(catalog[Succ(i, |catalog|)])
  {
    var r := FindIndex(catalog, catalog[i].id);
    assert r != -1;
    assert r == i;
    SuccIsMod(i, |catalog|);
  }

  /** With unique ids, "next" from the last entry wraps to the first. */
  lemma NextWrapsToFirst(catalog: seq<Business>)
    requires UniqueIds(catalog)
    requires |catalog| > 0
    ensures NextSelection(catalog, Some(catalog[|catalog| - 1])) == Some(catalog[0])
  {
    NextFromIndex(catalog, |catalog| - 1);
  }

  /** A selection whose id is not in the catalog: `findIndex` is -1 and
      "next" lands on the first entry. */
  lemma NextOfUnknownIdIsFirst(catalog: seq<Business>, b: Business)
    requires |catalog| > 0
    requires forall j :: 0 <= j < |catalog| ==> catalog[j].id != b.id
    ensures NextSelection(catalog, Some(b)) == Some(catalog[0])
  {
  }

  /** "Next" applied `k` times. */
  function Advance(catalog: seq<Business>, selected: Option<Business>, k: nat): Option<Business>
  {
    if k == 0 then selected else NextSelection(catalog, Advance(catalog, selected, k - 1))
  }

  /** Index `i` moved `k` cyclic successor steps among `n` positions. */
  function Offset(i: nat, k: nat, n: nat): (j: nat)
    requires i < n
    ensures j < n
  {
    if k == 0 then i else Succ(Offset(i, k - 1, n), n)
  }

  /** Within one lap, `k` steps from `i` land on `i + k`, less `n` once past the end. */
  lemma {:induction false} OffsetWithinLap(i: nat, k: nat, n: nat)
    requires i < n && k <= n
    ensures Offset(i, k, n) == if i + k < n then i + k else i + k - n
  {
    if k > 0 {
      OffsetWithinLap(i, k - 1, n);
    }
  }

  /** `k` steps from `i` land on `(i + k) mod n`. */
  lemma {:induction false} OffsetIsMod(i: nat, k: nat, n: nat)
    requires i < n
    ensures Offset(i, k, n) == (i + k) % n
  {
    if k == 0 {
      DivModUnique(i, n, 0, i);
    } else {
      OffsetIsMod(i, k - 1, n);
      SuccIsMod(Offset(i, k - 1, n), n);
      ModSucc(i + k - 1, n);
    }
  }

  lemma ModSucc(a: nat, n: nat)
    requires n > 0
    ensures (a % n + 1) % n == (a + 1) % n
  {
    var q, r := a / n, a % n;
    if r + 1 < n {
      DivModUnique(r + 1, n, 0, r + 1);
      DivModUnique(a + 1, n, q, r + 1);
    } else {
      DivModUnique(r + 1, n, 1, 0);
      DivModUnique(a + 1, n, q + 1, 0);
    }
  }

  /** With unique ids, `k` steps of "next" from entry `i` reach entry `i` moved `k` places cyclically. */
  lemma {:induction false} AdvanceFromIndex(catalog: seq<Business>, i: nat, k: nat)
    requires UniqueIds(catalog)
    requires i < |catalog|
    ensures Advance(catalog, Some(catalog[i]), k) == Some(catalog[Offset(i, k, |catalog|)])
  {
    if k > 0 {
      AdvanceFromIndex(catalog, i, k - 1);
      NextFromIndex(catalog, Offset(i, k - 1, |catalog|));
    }
  }

  /** With unique ids, `k` steps of "next" from entry `i` reach entry `(i + k) mod length`. */
  lemma AdvanceFromIndexMod(catalog: seq<Business>, i: nat, k: nat)
    requires UniqueIds(catalog)
    requires i < |catalog|
    ensures Advance(catalog, Some(catalog[i]), k) == Some(catalog[(i + k) % |catalog|])
  {
    AdvanceFromIndex(catalog, i, k);
    OffsetIsMod(i, k, |catalog|);
  }

  /** With unique ids, `|catalog|` steps of "next" return to the starting entry. */
  lemma AdvanceCycles(catalog: seq<Business>, i: nat)
    requires UniqueIds(catalog)
    requires i < |catalog|
    ensures Advance(catalog, Some(catalog[i]), |catalog|) == Some(catalog[i])
  {
    AdvanceFromIndex(catalog, i, |catalog|);
    OffsetWithinLap(i, |catalog|, |catalog|);
  }

  /** Three entries with ids "a1", "a2", "a3": from the first, two steps of
      "next" reach the third and a third step wraps back to the first. */
  lemma ThreeEntryTour(catalog: seq<Business>)
    requires |catalog| == 3
    requires catalog[0].id == "a1" && catalog[1].id == "a2" && catalog[2].id == "a3"
    ensures Advance(catalog, Some(catalog[0]), 2) == Some(catalog[2])
    ensures Advance(catalog, Some(catalog[0]), 3) == Some(catalog[0])
  {
    assert UniqueIds(catalog);
    AdvanceFromIndex(catalog, 0, 2);
    AdvanceCycles(catalog, 0);
  }

  /** Three entries with ids "x", "y", "x": `findIndex` finds the first "x",
      so "next" from the last entry goes to the middle one, not the first,
      and three steps from the last entry do not return to it. */
  lemma DuplicateIdsBreakWrap(catalog: seq<Business>)
    requires |catalog| == 3
    requires catalog[0].id == "x" && catalog[1].id == "y" && catalog[2].id == "x"
    ensures !UniqueIds(catalog)
    ensures NextSelection(catalog, Some(catalog[2])) == Some(catalog[1])
    ensures NextSelection(catalog, Some(catalog[2])) != Some(catalog[0])
    ensures Advance(catalog, Some(catalog[2]), 3) == Some(catalog[1])
    ensures Advance(catalog, Some(catalog[2]), 3) != Some(catalog[2])
  {
    assert FindIndex(catalog, "x") == 0;
    assert FindIndex(catalog, "y") == 1;
    assert Advance(catalog, Some(catalog[2]), 1) == Some(catalog[1]);
    assert Advance(catalog, Some(catalog[2]), 2) == Some(catalog[2]);
  }

  /** Any number of "next" steps from a selection stays inside a non-empty catalog. */
  lemma {:induction false} AdvanceStaysInCatalog(catalog: seq<Business>, b: Business, k: nat)
    requires |catalog| > 0
    requires k > 0
    ensures Advance(catalog, Some(b), k).Some? && Advance(catalog, Some(b), k).value in catalog
  {
    if k > 1 {
      AdvanceStaysInCatalog(catalog, b, k - 1);
    }
  }

  /** A selected catalog entry with unique ids makes exactly its own marker active. */
  lemma SelectionActivatesItsMarker(catalog: seq<Business>, b: Business)
    requires UniqueIds(catalog)
    requires b in catalog
    ensures exists k :: 0 <= k < |catalog| && catalog[k] == b && MapView.Markers(catalog, Some(b.id))[k].isActive
    ensures forall k :: 0 <= k < |catalog| && MapView.Markers(catalog, Some(b.id))[k].isActive ==> catalog[k] == b
  {
    var k :| 0 <= k < |catalog| && catalog[k] == b;
    forall j | 0 <= j < |catalog| && MapView.Markers(catalog, Some(b.id))[j].isActive
      ensures catalog[j] == b
    {
      MapView.AtMostOneActive(catalog, Some(b.id), j, k);
    }
  }

  /** The page: the catalog, the selection and the two components that keep
      state of their own (the dialog's expanded excursion, the map's hovered area). */
  class Page {
    const catalog: seq<Business>
    var selected: Option<Business>
    const dialog: Detail.Dialog
    const mapView: MapView.HoverState

    /** The selection is none or a catalog entry. The constructor establishes
        it and every method keeps it; no method needs it beforehand. */
    predicate Valid()
      reads this
    {
      selected.Some? ==> selected.value in catalog
    }

    /** `selectedBusiness?.id`, passed to the map. */
    function SelectedId(): (id: Option<string>)
      reads this
      ensures id.Some? <==> selected.Some?
      ensures id.Some? ==> id.value == selected.value.id
    {
      if selected.Some? then Some(selected.value.id) else None
    }

    /** What the dialog currently shows. */
    function View(): Option<Detail.DialogView>
      reads this, dialog
    {
      Detail.Render(selected, dialog.expanded)
    }

    /** The initial state: nothing selected, nothing expanded, nothing hovered. */
    constructor (catalog: seq<Business>)
      ensures this.catalog == catalog && selected == None && Valid()
      ensures View() == None
      ensures fresh(dialog) && dialog.expanded == None
      ensures fresh(mapView) && mapView.hoveredArea == None
    {
      this.catalog := catalog;
      selected := None;
      dialog := new Detail.Dialog();
      mapView := new MapView.HoverState();
    }

    /** Marker `k` reports its business, which `setSelectedBusiness` stores. */
    method ClickMarker(k: nat)
      requires k < |catalog|
      modifies this
      ensures selected == Some(catalog[k]) && Valid()
      ensures dialog.expanded == old(dialog.expanded)
    {
      selected := Some(MapView.ClickMarker(catalog, SelectedId(), k));
    }

    /** `onClose`: the selection is cleared. */
    method Close()
      modifies this
      ensures selected == None && Valid()
      ensures View() == None
      ensures dialog.expanded == old(dialog.expanded)
    {
      selected := None;
    }

    /** `handleNextBusiness`. The dialog's expanded index is left as it was,
        even though the business it referred to is no longer the one shown. */
    method Next()
      modifies this
      ensures selected == NextSelection(catalog, old(selected))
      ensures Valid()
      ensures dialog.expanded == old(dialog.expanded)
    {
      if selected.None? {
        return;
      }
      var currentIndex := FindIndex(catalog, selected.value.id);
      if |catalog| == 0 {
        selected := None;
      } else {
        var nextIndex := (currentIndex + 1) % |catalog|;
        selected := Some(catalog[nextIndex]);
      }
    }

    /** A click on excursion `index` of the business shown. */
    method ClickExcursion(index: nat)
      requires selected.Some? && index < |selected.value.excursions|
      modifies dialog
      ensures dialog.expanded
           == Detail.AfterClick(old(dialog.expanded), Detail.HasImage(selected.value.excursions[index]), index)
      ensures selected == old(selected)
      ensures Valid() == old(Valid())
    {
      dialog.ClickExcursion(selected.value, index);
    }
  }
}
