/** The detail dialog (src/components/BusinessDetailDialog.tsx): nothing is
    rendered without a business; otherwise a tab strip whose optional tabs
    depend on the business's optional lists, and an excursion list in which
    entries that carry an image can be expanded one at a time. */
module Detail {
  import opened Types

  /** `isExcursionItem`: the entry is the object form (its `text` is guaranteed by its type). */
  predicate IsExcursionItem(e: Excursion)
  {
    e.Item?
  }

  /** The text an excursion carries, whichever form it takes. */
  function TextOf(e: Excursion): string
  {
    match e
    case Plain(s) => s
    case Item(it) => it.text
  }

  /** `excItem`: a plain string becomes `{text}` with no image; an object is used as it is. */
  function Normalize(e: Excursion): (r: ExcursionItem)
    ensures r.text == TextOf(e)
    ensures IsExcursionItem(e) ==> r == e.item
    ensures !IsExcursionItem(e) ==> r.imageUrl == None
  {
    if IsExcursionItem(e) then e.item else ExcursionItem(e.text, None)
  }

  /** `hasImage = Boolean(excItem.imageUrl)`. */
  predicate HasImage(e: Excursion)
  {
    Truthy(Normalize(e).imageUrl)
  }

  /** An entry has an image iff it is the object form with a present, non-empty `imageUrl`. */
  lemma HasImageIff(e: Excursion)
    ensures HasImage(e) <==> e.Item? && e.item.imageUrl.Some? && e.item.imageUrl.value != ""
  {
  }

  /** `hasAnyImages`: `excursions.some(exc => isExcursionItem(exc) && exc.imageUrl)`. */
  predicate HasAnyImages(excursions: seq<Excursion>)
  {
    if excursions == [] then false
    else (IsExcursionItem(excursions[0]) && Truthy(excursions[0].item.imageUrl))
         || HasAnyImages(excursions[1..])
  }

  /** `hasAnyImages` holds iff some single entry has an image. */
  lemma {:induction false} HasAnyImagesIff(excursions: seq<Excursion>)
    ensures HasAnyImages(excursions) <==> exists i :: 0 <= i < |excursions| && HasImage(excursions[i])
  {
    if excursions != [] {
      HasAnyImagesIff(excursions[1..]);
      if HasAnyImages(excursions[1..]) {
        var i :| 0 <= i < |excursions| - 1 && HasImage(excursions[1..][i]);
        assert HasImage(excursions[i + 1]);
      }
      if exists i :: 0 <= i < |excursions| && HasImage(excursions[i]) {
        var i :| 0 <= i < |excursions| && HasImage(excursions[i]);
        if i > 0 {
          assert HasImage(excursions[1..][i - 1]);
        }
      }
    }
  }

  /** The `expandedExcursion` value after clicking entry `index`: an entry
      without an image does nothing; one with an image collapses if it was
      the expanded one and becomes the expanded one otherwise. */
  function AfterClick(expanded: Option<nat>, hasImage: bool, index: nat): (r: Option<nat>)
  {
    if hasImage then (if expanded == Some(index) then None else Some(index)) else expanded
  }

  /** Clicking an entry: no effect without an image; with one, the entry ends
      expanded exactly when it was not, and nothing else is expanded. */
  lemma AfterClickToggles(expanded: Option<nat>, hasImage: bool, index: nat)
    ensures !hasImage ==> AfterClick(expanded, hasImage, index) == expanded
    ensures hasImage ==> (AfterClick(expanded, hasImage, index) == Some(index) <==> expanded != Some(index))
    ensures hasImage ==> AfterClick(expanded, hasImage, index) in {None, Some(index)}
  {
  }

  /** The state is one slot, not a flag per entry: expanding image entry `i`
      collapses whichever other entry was expanded. */
  lemma ExpandingOneCollapsesOther(i: nat, j: nat)
    requires i != j
    ensures AfterClick(Some(j), true, i) == Some(i)
    ensures AfterClick(AfterClick(Some(j), true, i), true, i) == None
  {
  }

  /** Two clicks on the same image entry end collapsed, unless that entry was
      expanded to begin with, in which case they restore it. */
  lemma ClickTwice(expanded: Option<nat>, index: nat)
    ensures AfterClick(AfterClick(expanded, true, index), true, index)
         == (if expanded == Some(index) then Some(index) else None)
  {
  }

  /** The five tabs, in the order their triggers appear. */
  datatype Tab = Excursions | Technologies | History | Testimonials | Careers

  /** `list && list.length > 0`. */
  predicate NonEmpty<T>(list: Option<seq<T>>)
  {
    list.Some? && |list.value| > 0
  }

  function When(present: bool, t: Tab): seq<Tab>
  {
    if present then [t] else []
  }

  /** The tab triggers: an optional tab needs its list defined and non-empty. */
  function TabTriggers(b: Business): seq<Tab>
  {
    [Excursions]
    + When(NonEmpty(b.technologies), Technologies)
    + When(NonEmpty(b.history), History)
    + When(NonEmpty(b.testimonials), Testimonials)
    + [Careers]
  }

  /** The tab panels: an optional panel needs its list defined only. */
  function TabPanels(b: Business): seq<Tab>
  {
    [Excursions]
    + When(b.technologies.Some?, Technologies)
    + When(b.history.Some?, History)
    + When(b.testimonials.Some?, Testimonials)
    + [Careers]
  }

  /** Excursions and Careers are always offered, first and last; each optional
      tab is offered iff its list is defined and non-empty. */
  lemma TabTriggersPresence(b: Business)
    ensures TabTriggers(b)[0] == Excursions && TabTriggers(b)[|TabTriggers(b)| - 1] == Careers
    ensures Technologies in TabTriggers(b) <==> NonEmpty(b.technologies)
    ensures History in TabTriggers(b) <==> NonEmpty(b.history)
    ensures Testimonials in TabTriggers(b) <==> NonEmpty(b.testimonials)
    ensures forall i, j :: 0 <= i < j < |TabTriggers(b)| ==> TabTriggers(b)[i] != TabTriggers(b)[j]
  {
  }

  /** Every offered tab has a panel; a defined but empty list yields a panel
      that no trigger can reach. */
  lemma TabTriggersHavePanels(b: Business)
    ensures forall t :: t in TabTriggers(b) ==> t in TabPanels(b)
    ensures Excursions in TabPanels(b) && Careers in TabPanels(b)
    ensures Technologies in TabPanels(b) <==> b.technologies.Some?
    ensures History in TabPanels(b) <==> b.history.Some?
    ensures Testimonials in TabPanels(b) <==> b.testimonials.Some?
    ensures b.technologies == Some([]) ==> Technologies in TabPanels(b) && Technologies !in TabTriggers(b)
    ensures b.history == Some([]) ==> History in TabPanels(b) && History !in TabTriggers(b)
    ensures b.testimonials == Some([]) ==> Testimonials in TabPanels(b) && Testimonials !in TabTriggers(b)
  {
  }

  /** What one excursion entry shows. */
  datatype EntryView = EntryView(
    number: nat,           // the 1-based badge
    text: string,
    hasImage: bool,        // the image badge and the click target
    showHint: bool,        // "click to see the photo"
    image: Option<string>) // the expanded image, when shown

  function RenderEntry(e: Excursion, index: nat, expanded: Option<nat>): EntryView
  {
    var item := Normalize(e);
    var hasImage := Truthy(item.imageUrl);
    var isExpanded := expanded == Some(index);
    EntryView(index + 1, item.text, hasImage, hasImage && !isExpanded,
              if hasImage && isExpanded && Truthy(item.imageUrl) then item.imageUrl else None)
  }

  /** What an open dialog shows. */
  datatype DialogView = DialogView(
    name: string,
    subcategory: string,
    description: string,
    triggers: seq<Tab>,
    panels: seq<Tab>,
    entries: seq<EntryView>,
    careers: seq<string>)

  /** The dialog for `business` (or nothing, without one), given the
      component's `expandedExcursion` state. */
  function Render(business: Option<Business>, expanded: Option<nat>): (r: Option<DialogView>)
    ensures r.None? <==> business.None?
    ensures r.Some? ==> |r.value.entries| == |business.value.excursions|
    ensures r.Some? ==> r.value.triggers == TabTriggers(business.value) && r.value.panels == TabPanels(business.value)
  {
    match business
    case None => None
    case Some(b) =>
      Some(DialogView(
        b.name, b.subcategory, b.description, TabTriggers(b), TabPanels(b),
        seq(|b.excursions|, i requires 0 <= i < |b.excursions| => RenderEntry(b.excursions[i], i, expanded)),
        b.professions))
  }

  /** Entry `k` shows its own text under badge `k + 1`, shows the image badge
      iff it has an image, and shows the expanded image, its own, iff it has
      one and `k` is the expanded index. */
  lemma EntryShowsImageIff(b: Business, expanded: Option<nat>, k: nat)
    requires k < |b.excursions|
    ensures var v := Render(Some(b), expanded).value.entries[k];
      && v.number == k + 1
      && v.text == TextOf(b.excursions[k])
      && (v.hasImage <==> HasImage(b.excursions[k]))
      && (v.image.Some? <==> HasImage(b.excursions[k]) && expanded == Some(k))
      && (v.image.Some? ==> v.image == b.excursions[k].item.imageUrl)
      && (v.showHint <==> HasImage(b.excursions[k]) && expanded != Some(k))
  {
  }

  /** At most one entry shows its image at any time. */
  lemma AtMostOneImageShown(b: Business, expanded: Option<nat>, j: nat, k: nat)
    requires j < |b.excursions| && k < |b.excursions|
    requires Render(Some(b), expanded).value.entries[j].image.Some?
    requires Render(Some(b), expanded).value.entries[k].image.Some?
    ensures j == k
  {
    EntryShowsImageIff(b, expanded, j);
    EntryShowsImageIff(b, expanded, k);
  }

  /** A plain-string excursion and an object excursion with an image both
      show their text; only the second offers the image toggle. */
  lemma PlainAndImageEntries(b: Business, expanded: Option<nat>)
    requires b.excursions == [Plain("Visit the floor"), Item(ExcursionItem("Visit the lab", Some("x.png")))]
    ensures var v := Render(Some(b), expanded).value.entries;
      && v[0].text == "Visit the floor" && !v[0].hasImage
      && v[1].text == "Visit the lab" && v[1].hasImage
  {
    EntryShowsImageIff(b, expanded, 0);
    EntryShowsImageIff(b, expanded, 1);
  }

  /** The `expandedExcursion` state. The hook sits above the early return for
      a missing business and the dialog stays mounted, so the state lives on
      whether or not a business is shown, and across changes of business. */
  class Dialog {
    var expanded: Option<nat>

    constructor ()
      ensures expanded == None
    {
      expanded := None;
    }

    /** The click handler of entry `index` of the business being shown. */
    method ClickExcursion(business: Business, index: nat)
      requires index < |business.excursions|
      modifies this
      ensures expanded == AfterClick(old(expanded), HasImage(business.excursions[index]), index)
      ensures !HasImage(business.excursions[index]) ==> expanded == old(expanded)
      ensures HasImage(business.excursions[index]) ==> (expanded == Some(index) <==> old(expanded) != Some(index))
    {
      var item := Normalize(business.excursions[index]);
      var hasImage := Truthy(item.imageUrl);
      var isExpanded := expanded == Some(index);
      if hasImage {
        expanded := if isExpanded then None else Some(index);
      }
    }
  }
}
