/** The illustrated map (src/components/InteractiveMap.tsx): one marker per
    catalog entry, in catalog order, active exactly when its id is the
    selected id; and the hover state of the two park areas. */
module MapView {
  import opened Types
  import Marker

  /** The props handed to one `BusinessMarker`: the business it is bound to
      (its click reports this business) and whether it is active. */
  datatype MarkerProps = MarkerProps(business: Business, isActive: bool)

  /** `businesses.map(...)`: one marker per business, active iff
      `selectedBusinessId === business.id` (an absent id equals no string). */
  function Markers(businesses: seq<Business>, selectedId: Option<string>): (r: seq<MarkerProps>)
    ensures |r| == |businesses|
    ensures forall k :: 0 <= k < |r| ==> r[k].business == businesses[k]
    ensures forall k :: 0 <= k < |r| ==> (r[k].isActive <==> selectedId == Some(businesses[k].id))
  {
    if businesses == [] then []
    else [MarkerProps(businesses[0], selectedId == Some(businesses[0].id))]
         + Markers(businesses[1..], selectedId)
  }

  /** The business reported to `onBusinessClick` when marker `k` is clicked. */
  function ClickMarker(businesses: seq<Business>, selectedId: Option<string>, k: nat): (b: Business)
    requires k < |businesses|
    ensures b == businesses[k]
  {
    Markers(businesses, selectedId)[k].business
  }

  /** With no selected id, no marker is active. */
  lemma NoSelectionNoActiveMarker(businesses: seq<Business>, k: nat)
    requires k < |businesses|
    ensures !Markers(businesses, None)[k].isActive
  {
  }

  /** With unique ids, at most one marker is active. */
  lemma AtMostOneActive(businesses: seq<Business>, selectedId: Option<string>, j: nat, k: nat)
    requires UniqueIds(businesses)
    requires j < |businesses| && k < |businesses|
    requires Markers(businesses, selectedId)[j].isActive && Markers(businesses, selectedId)[k].isActive
    ensures j == k
  {
  }

  /** Selecting catalog entry `k` (unique ids) activates marker `k` and no other,
      and only that marker draws a pulse ring. */
  lemma SelectedMarkerIsTheOnlyActive(businesses: seq<Business>, k: nat, j: nat)
    requires UniqueIds(businesses)
    requires k < |businesses| && j < |businesses|
    ensures Markers(businesses, Some(businesses[k].id))[j].isActive <==> j == k
    ensures Marker.RenderMarker(businesses[j], Markers(businesses, Some(businesses[k].id))[j].isActive).pulseRing <==> j == k
  {
    if j != k {
      assert businesses[j].id != businesses[k].id;
    }
  }

  /** The two park areas that react to the mouse, and their names. */
  datatype Park = Park1 | Park2

  function ParkName(p: Park): string
  {
    match p
    case Park1 => "park1"
    case Park2 => "park2"
  }

  /** A park is drawn brighter iff the hovered area is its name. */
  predicate Highlighted(hoveredArea: Option<string>, p: Park)
  {
    hoveredArea == Some(ParkName(p))
  }

  /** At most one park is highlighted at a time. */
  lemma AtMostOneHighlighted(hoveredArea: Option<string>)
    ensures !(Highlighted(hoveredArea, Park1) && Highlighted(hoveredArea, Park2))
  {
  }

  /** The `hoveredArea` state of the map component. */
  class HoverState {
    var hoveredArea: Option<string>

    constructor ()
      ensures hoveredArea == None
    {
      hoveredArea := None;
    }

    /** `onMouseEnter` of a park: that park, and only it, is highlighted. */
    method Enter(p: Park)
      modifies this
      ensures hoveredArea == Some(ParkName(p))
      ensures Highlighted(hoveredArea, p)
      ensures forall q :: Highlighted(hoveredArea, q) <==> q == p
    {
      hoveredArea := Some(ParkName(p));
      AtMostOneHighlighted(hoveredArea);
    }

    /** `onMouseLeave` of either park clears the hovered area, whichever it was. */
    method Leave(p: Park)
      modifies this
      ensures hoveredArea == None
      ensures forall q :: !Highlighted(hoveredArea, q)
    {
      hoveredArea := None;
    }
  }
}
