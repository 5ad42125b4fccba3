# Partner-business map: selection, detail dialog and markers

A Dafny model of the logic in a single-page app. The app shows partner businesses of a vocational school's excursion programme on an illustrated map. The model covers:

- **Selection** (`selection.dfy`, src/App.tsx): the page's one piece of state is the selected business or none.
  - A marker click selects that marker's business.
  - Closing the dialog clears the selection.
  - "Next" looks up the current business's index by id with `findIndex`. It moves to `(index + 1) % length`.
  - An id that is not in the catalog gives index -1, so "next" lands on the first entry.
  - On an empty catalog the index is NaN, the entry read is `undefined`, and the selection becomes falsy (`None`).
  - `Page` is the class that holds the selection. It also holds the dialog's and the map's own state objects.
  - The cycling lemmas prove that "next" stays in the catalog. With unique ids, they also prove that it wraps from the last entry to the first and returns to its start after `|catalog|` steps. With duplicate ids neither is guaranteed: `findIndex` finds the first entry with the id, so from a later duplicate "next" continues after the first one. With ids x, y, x, "next" from the last entry goes to the middle one, and three steps from the last entry end on the middle one (`Selection.DuplicateIdsBreakWrap`).
- **Detail dialog** (`detail.dfy`, src/components/BusinessDetailDialog.tsx):
  - It renders nothing without a business.
  - Excursions are either plain strings or `{text, imageUrl?}` objects. They are normalised to the object form.
  - An entry has an image iff its `imageUrl` is present and non-empty.
  - The `expandedExcursion` toggle is the class `Dialog`.
  - A tab trigger appears only when its list is defined and non-empty. A tab panel appears whenever its list is defined.
  - The toggle's state is not reset when the shown business changes. The hook is declared above the early return, and the dialog stays mounted. So `Page.Next`, `Page.Close` and `Page.ClickMarker` leave `dialog.expanded` as it was.
- **Markers** (`marker.dfy`, src/components/BusinessMarker.tsx): the icon name resolves to one of 17 glyphs, with `Building2` as the fallback. A pulse ring is drawn exactly for the active marker.
- **Map** (`map.dfy`, src/components/InteractiveMap.tsx):
  - There is one marker per business, in catalog order.
  - A marker is active iff its id equals the selected id.
  - With unique ids, at most one marker is active.
  - The hovered park area is a set/clear state, and a park is highlighted iff it is the hovered one.
- **Types** (`types.dfy`, src/types/business.ts): the data shapes. The catalog is a parameter. Id uniqueness is a precondition only where a property needs it.

Behaviours of the code a reader may not expect:
- The expanded excursion is not reset when the dialog shows another business, or when it is closed and reopened (see above).
- "Next" from a selection whose id is in no entry goes to entry 0, because `findIndex` gives -1 (`Selection.NextOfUnknownIdIsFirst`).
- The expanded excursion is one slot, not a flag per entry. Expanding image entry i collapses any other expanded entry j (`Detail.ExpandingOneCollapsesOther`).

## Model

| member | source | states |
|---|---|---|
| `Selection.FindIndex` | src/App.tsx:15 | result is -1 iff no entry has the id; otherwise it is the first index whose entry has the id |
| `Selection.NextSelection` | src/App.tsx:12-18 | no selection stays none; with a selection and a non-empty catalog the result is a catalog entry; an empty catalog yields none |
| `Selection.NextFromIndex` | src/App.tsx:15-17 | with unique ids, "next" from entry i is entry (i + 1) mod length |
| `Selection.NextWrapsToFirst` | src/App.tsx:16-17 | with unique ids, "next" from the last entry is the first entry |
| `Selection.NextOfUnknownIdIsFirst` | src/App.tsx:15-17 | a selection whose id is in no entry moves to entry 0 (findIndex gives -1) |
| `Selection.AdvanceFromIndex` | src/App.tsx:15-17 | with unique ids, k steps of "next" from entry i reach i moved k places cyclically |
| `Selection.AdvanceFromIndexMod` | src/App.tsx:15-17 | with unique ids, k steps of "next" from entry i reach entry (i + k) mod length |
| `Selection.AdvanceCycles` | src/App.tsx:15-17 | with unique ids, length steps of "next" return to the starting entry |
| `Selection.DuplicateIdsBreakWrap` | src/App.tsx:15-17 | with ids x, y, x the ids are not unique; "next" from the last entry is the middle one, not the first, and three steps from the last entry end on the middle one, not on the start |
| `Selection.AdvanceStaysInCatalog` | src/App.tsx:16-17 | any positive number of "next" steps from a selection ends on a catalog entry |
| `Selection.ThreeEntryTour` | src/App.tsx:15-17 | ids a1, a2, a3: two steps from the first reach the third, three return to the first |
| `Selection.SelectionActivatesItsMarker` | src/App.tsx:88 | a selected catalog entry (unique ids) makes its own marker active and no other |
| `Selection.Page.SelectedId` | src/App.tsx:88 | the id passed to the map is present iff a business is selected, and is that business's id |
| `Selection.Page.constructor` | src/App.tsx:10 | the initial selection is none, so the dialog shows nothing; no excursion expanded, no area hovered |
| `Selection.Page.ClickMarker` | src/App.tsx:87 | clicking marker k selects exactly catalog entry k; the expanded excursion is untouched |
| `Selection.Page.Close` | src/App.tsx:97 | closing clears the selection and the dialog renders nothing; the expanded excursion is untouched |
| `Selection.Page.Next` | src/App.tsx:12-18 | the new selection is `NextSelection` of the old one and stays none or a catalog entry; the expanded excursion is untouched |
| `Selection.Page.ClickExcursion` | src/components/BusinessDetailDialog.tsx:157 | an excursion click changes the expanded index as the toggle says, leaves the selection alone and so keeps `Valid()` as it was |
| `Detail.Normalize` | src/components/BusinessDetailDialog.tsx:139 | the normalised entry keeps the excursion's text; an object (`isExcursionItem` at lines 22-24, modelled by `Detail.IsExcursionItem`) is used as it is; a plain string has no image |
| `Detail.HasImageIff` | src/components/BusinessDetailDialog.tsx:140 | an entry has an image iff it is an object whose `imageUrl` is present and non-empty |
| `Detail.HasAnyImagesIff` | src/components/BusinessDetailDialog.tsx:26 | `hasAnyImages` holds iff some entry has an image |
| `Detail.AfterClickToggles` | src/components/BusinessDetailDialog.tsx:157 | a click on an entry without an image changes nothing; on an image entry it expands it iff it was not expanded, else collapses to none |
| `Detail.ExpandingOneCollapsesOther` | src/components/BusinessDetailDialog.tsx:18-157 | with entry j expanded, clicking image entry i (i different from j) expands i and collapses j; a second click on i leaves nothing expanded |
| `Detail.ClickTwice` | src/components/BusinessDetailDialog.tsx:141-157 | two clicks on image entry i end at none, unless i was expanded before, in which case they end at i |
| `Detail.TabTriggersPresence` | src/components/BusinessDetailDialog.tsx:91-131 | Excursions first and Careers last always; each optional trigger appears iff its list is defined and non-empty; no trigger twice |
| `Detail.TabTriggersHavePanels` | src/components/BusinessDetailDialog.tsx:209-310 | each optional panel is present iff its list is defined; every trigger has a panel; a defined but empty technologies, history or testimonials list gives a panel without a trigger |
| `Detail.Render` | src/components/BusinessDetailDialog.tsx:20-310 | the dialog renders nothing iff there is no business; otherwise one entry per excursion, and exactly the tab triggers and tab panels the business's lists call for |
| `Detail.EntryShowsImageIff` | src/components/BusinessDetailDialog.tsx:139-186 | entry k shows number k + 1 and its own text; the image badge iff it has an image; its own image iff it has one and k is the expanded index; the hint iff it has one and is not expanded |
| `Detail.AtMostOneImageShown` | src/components/BusinessDetailDialog.tsx:186 | no two entries show their image at once |
| `Detail.PlainAndImageEntries` | src/components/BusinessDetailDialog.tsx:139-140 | a plain string and an object with an image both show their text; only the object offers the toggle |
| `Detail.Dialog.constructor` | src/components/BusinessDetailDialog.tsx:18 | the expanded index starts as none |
| `Detail.Dialog.ClickExcursion` | src/components/BusinessDetailDialog.tsx:157 | without an image the state is unchanged; with one, entry `index` ends expanded iff it was not |
| `Marker.LookupFindsEveryGlyph` | src/components/BusinessMarker.tsx:30-48 | every glyph is registered under its own name |
| `Marker.LookupIsByName` | src/components/BusinessMarker.tsx:30-48 | a name that is found is the registered name of the glyph found |
| `Marker.LookupRegistersEveryGlyph` | src/components/BusinessMarker.tsx:30-48 | the table maps a name to glyph g iff the name is g's own name |
| `Marker.ResolveIcon` | src/components/BusinessMarker.tsx:51 | a registered name resolves to its glyph; any other name to `Building2` |
| `Marker.ResolveIconExact` | src/components/BusinessMarker.tsx:30-51 | every glyph's name resolves to that glyph; a name resolves to g iff it is g's name, or g is `Building2` and the name is unregistered |
| `Marker.ResolveIconAsWritten` | src/components/BusinessMarker.tsx:30-51 | as written, a registered name gives its glyph, and the result is a non-glyph inherited member exactly for the `Object.prototype` names |
| `Marker.InheritedNameEscapesFallback` | src/components/BusinessMarker.tsx:51 | "toString" is unregistered, yet as written it yields an inherited member, not `Building2` |
| `Marker.AsWrittenAgreesOffPrototype` | src/components/BusinessMarker.tsx:51 | off the prototype names, the as-written lookup equals `ResolveIcon` |
| `Marker.RenderMarker` | src/components/BusinessMarker.tsx:51-74 | the pulse ring is drawn iff the marker is active; the glyph is the resolved one |
| `MapView.Markers` | src/components/InteractiveMap.tsx:181-188 | one marker per business, in catalog order, each bound to its business and active iff the selected id is its id |
| `MapView.ClickMarker` | src/components/InteractiveMap.tsx:185 | clicking marker k reports business k |
| `MapView.NoSelectionNoActiveMarker` | src/components/InteractiveMap.tsx:186 | with no selected id no marker is active |
| `MapView.AtMostOneActive` | src/components/InteractiveMap.tsx:186 | with unique ids two active markers are the same marker |
| `MapView.SelectedMarkerIsTheOnlyActive` | src/components/InteractiveMap.tsx:186 | selecting entry k (unique ids) activates marker k and no other, and only it pulses |
| `MapView.AtMostOneHighlighted` | src/components/InteractiveMap.tsx:65-81 | the two parks are never highlighted together |
| `MapView.HoverState.constructor` | src/components/InteractiveMap.tsx:13 | the hovered area starts as none |
| `MapView.HoverState.Enter` | src/components/InteractiveMap.tsx:65-67 | entering a park makes it, and only it, the highlighted one |
| `MapView.HoverState.Leave` | src/components/InteractiveMap.tsx:79-81 | leaving a park clears the hovered area, so no park is highlighted |

## Findings

| source | as written | input that shows it | evidently intended | confidence | as-written member | corrected member |
|---|---|---|---|---|---|---|
| src/components/BusinessMarker.tsx:51 | `iconMap[business.icon] \|\| Building2` reads a plain object literal. That also finds members inherited from `Object.prototype`. They are truthy values and not glyphs: functions, and `Object.prototype` itself for `__proto__`. | a business whose `icon` is "toString" (or "constructor", "valueOf", "__proto__", ...) | any unregistered name falls back to `Building2` | low; not executed | `Marker.ResolveIconAsWritten`, `Marker.InheritedNameEscapesFallback` | `Marker.ResolveIcon` |

The markers are drawn with `Marker.ResolveIcon`, the own-property lookup.

## Left out

- Marker.RenderMarker: draws the glyph from `Marker.ResolveIcon`, the own-property lookup. So for the 12 `Object.prototype` names it draws `Building2`, where src/components/BusinessMarker.tsx:51 as written yields the inherited member (see "## Findings" and `Marker.ResolveIconAsWritten`).
- Marker coordinates `x`, `y`, the `- 2.5` offsets and the SVG/JSX layout: drawing only. They are not in the `Business` datatype.
- Colours and the colour strings built from them (`${color}10`), Tailwind classes, and the decorative roads, river and buildings: presentation only.
- `motion/react` animations and the `Math.random()` marker delay: non-functional and non-deterministic.
- `lucide-react` glyph components, `./ui/*`, `ImageWithFallback` and `Tabs`: foreign code. Glyphs are a datatype of names, and tabs are a list of tab names.
- The choice of the active tab (`defaultValue="excursions"` and the user's tab clicks): held inside the foreign `Tabs` component.
- src/components/MapLegend.tsx: it renders a constant table and has no logic.
- The catalog data module `src/data/businesses` is not part of this model. The catalog is a parameter of `Selection.Page`.
- `hasAnyImages` is computed but not used in the rendered output. So it appears only as `Detail.HasAnyImages` and its lemma, not in `Detail.DialogView`.
- React rendering and reconciliation: the model covers only the state transitions and what each state shows.
- A call of `setSelectedBusiness` with a business outside the catalog is not modelled. The other calls pass null (`onClose`, src/App.tsx:97, modelled by `Selection.Page.Close`) or a catalog entry (`handleNextBusiness`, src/App.tsx:17, modelled by `Selection.Page.Next`). The only call that could pass an arbitrary business is the marker click (src/App.tsx:87), and it always passes a catalog entry. The marker click and `setSelectedBusiness` together are modelled as one method, `Selection.Page.ClickMarker`.
