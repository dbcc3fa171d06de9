# Storage contents tab — a Dafny model

This project models the logic of `ITab_ContentsStorage`, the inspector tab
that lists what a storage building (an outdoor root cellar or ordinary
storage) holds. Each frame the tab sorts the stored things and draws one
fixed-height row per thing. Each row has an eject button, a forbid
checkbox and a rot countdown. The tab also forwards things marked for
selection to the caravan "select now" service.

The model covers these parts:

- `Items`: the attributes the tab reads from a stored thing and the
  five-part sort key built from them. Each thing carries its ID number, so
  two stacks with equal attributes remain two things. This module also holds
  the quality fallback, the integer health division and the effect of
  `SetForbidden`.
- `Ordering`: the comparator behind the `OrderBy`/`ThenBy` chain. Next to it
  sits a declarative lexicographic definition of the same order, with proofs
  that the two agree and that the comparator is a total order.
- `StableSort`: the ordering step as a stable insertion sort. It is proved to
  be a permutation, to be sorted and to be stable, and to be the only
  arrangement with those properties. The division-by-zero exception appears
  as a `Failure`.
- `RowRenderer`: the decisions `DoRow` makes. These are its hit regions, its
  background, the forbid toggle, the rot tooltip band, the eject requests and
  the cursor advance.
- `ListView`: `DoItemsLists`, and `ListContainedItems` with its heading
  figures and its loop that calls `DoRow` once per thing.
- `Panel`: `FillTab` and its selection buffer.

Mouse position, clicks, the rot rate at the ambient temperature and the
heights of the engine's heading separator and "none" label are inputs. All
drawing is outside the model.

Several behaviours of the code are easy to misread:

- A thing that cannot rot has a null rot key. .NET sorts null before every
  value, so such things come first within a tie group
  (`StableSort.RotlessBeforePerishable`).
- The health key is `HitPoints / MaxHitPoints` in integer division, not a
  fraction. In the usual range the key is 1 at full health and 0 at any
  damage, so all damaged things tie (`Items.HealthKeyFullOrDamaged`). A zero
  `MaxHitPoints` throws, which `OrderItems` models as
  `Failure(DivideByZero)`.
- `TryGetQuality` reports Normal for a thing without a quality component.
  Such a thing therefore sorts among Normal things: after Good and better,
  before Poor and Awful (`StableSort.QualityVersusUnqualified`).
- Reordering the input gives the same output exactly when every group of
  equal-keyed things keeps its order
  (`StableSort.SameOrderIffSameKeyGroups`).
- Clicking the forbid checkbox of a thing without `CompForbiddable` requests
  `SetForbidden`, which then silently does nothing
  (`RowRenderer.ToggleTwiceRestores`).
- No code of this tab adds to the selection buffer. `DoRow` does not, and
  `DoItemsLists` replaces the base tab's list. So in this tab the buffer
  stays empty and "select now" never runs. `Panel.FillTab` takes what is
  marked as an input, to state the buffer protocol.

## Model

| member | source | states |
|---|---|---|
| Items.QualityKey | Source/UI/ITab_ContentsStorage.cs:63-67 | the quality key is the quality's enum rank, 0 to 6; a thing with no quality gets Normal's rank 2, the value `TryGetQuality` reports for it |
| Items.HealthKey | Source/UI/ITab_ContentsStorage.cs:68 | the health key is `HitPoints / MaxHitPoints` truncated toward zero: the remainder is smaller than the divisor and has the sign of the hit points |
| Items.KeyFields | Source/UI/ITab_ContentsStorage.cs:63-68 | the five selectors give: a quality rank from 0 to 6, shared by unqualitied and Normal things only; a missing rot key exactly for things that cannot rot; a health key of 1 exactly at full health in the usual range |
| Items.UnqualifiedKeyedAsNormal | Source/UI/ITab_ContentsStorage.cs:63-67 | a thing without quality has the same sort key as the same thing at quality q exactly when q is Normal |
| Items.TruncDiv | Source/UI/ITab_ContentsStorage.cs:68 | C# integer division: the remainder is smaller than the divisor in magnitude and has the dividend's sign (truncation toward zero) |
| Items.HealthKeyFullOrDamaged | Source/UI/ITab_ContentsStorage.cs:68 | for 0 <= hit points <= max with max > 0, the health key is 1 exactly at full health and 0 at every lower health |
| Ordering.CompareLabel | Source/UI/ITab_ContentsStorage.cs:63 | the label comparison is a sign, and identical labels compare equal |
| Ordering.CompareRot | Source/UI/ITab_ContentsStorage.cs:68 | `Comparer<int?>.Default` on rot keys: a sign, zero exactly on equal keys, and negative exactly when the first is null and the second is not, or both are set and the first is smaller |
| Ordering.CompareKeys | Source/UI/ITab_ContentsStorage.cs:63-68 | the chain is a sign, zero on identical keys; a different category decides by category; with category and label equal a different quality puts the higher one first; then rot decides as `Comparer<int?>`; then the higher health key comes first |
| Ordering.CompareLabelBefore | Source/UI/ITab_ContentsStorage.cs:63 | the label comparator is negative exactly when the first label is a proper prefix of the second or has the smaller character at the first difference |
| Ordering.CompareLabelZero | Source/UI/ITab_ContentsStorage.cs:63 | two labels compare equal exactly when they are the same string |
| Ordering.CompareLabelAntisymmetric | Source/UI/ITab_ContentsStorage.cs:63 | swapping two labels negates their comparison |
| Ordering.CompareLabelTransitive | Source/UI/ITab_ContentsStorage.cs:63 | label order is transitive |
| Ordering.CompareKeysBefore | Source/UI/ITab_ContentsStorage.cs:63-68 | the chained comparator is negative exactly for the lexicographic order: category up, then label up, then quality down, then rot up with null first, then health down |
| Ordering.CompareKeysZero | Source/UI/ITab_ContentsStorage.cs:63-68 | two keys tie on the whole chain exactly when all five parts are equal |
| Ordering.CompareKeysAntisymmetric | Source/UI/ITab_ContentsStorage.cs:63-68 | swapping two keys negates their comparison |
| Ordering.CompareKeysTransitive | Source/UI/ITab_ContentsStorage.cs:63-68 | the chained order is transitive, so it is a total preorder a sort can use |
| StableSort.Insert | Source/UI/ITab_ContentsStorage.cs:63-68 | inserting adds exactly one copy of the thing and drops nothing |
| StableSort.InsertionSort | Source/UI/ITab_ContentsStorage.cs:63-68 | the sorted list has the same multiset of things as the input |
| StableSort.InsertSorted | Source/UI/ITab_ContentsStorage.cs:63-68 | inserting into a sorted list keeps it sorted |
| StableSort.InsertionSortSorted | Source/UI/ITab_ContentsStorage.cs:63-68 | every earlier thing of the result has a key no later than every later one |
| StableSort.InsertKeyClass | Source/UI/ITab_ContentsStorage.cs:63-68 | an inserted thing goes to the front of its own equal-key group and every other group is unchanged |
| StableSort.InsertionSortKeyClass | Source/UI/ITab_ContentsStorage.cs:63-68 | for each key, the things with that key appear in the result in input order |
| StableSort.InsertionSortStable | Source/UI/ITab_ContentsStorage.cs:63-68 | the sort is stable: every group of equal-keyed things keeps its input order |
| StableSort.SortedUnique | Source/UI/ITab_ContentsStorage.cs:63-68 | two sorted lists with the same equal-key groups are identical |
| StableSort.OrderItems | Source/UI/ITab_ContentsStorage.cs:63-68 | the ordering fails exactly when some thing has zero max hit points; otherwise it is a sorted, stable permutation of the contents of the same length |
| StableSort.OrderItemsUnique | Source/UI/ITab_ContentsStorage.cs:63-68 | any sorted list that keeps every equal-key group in input order is the ordering's result |
| StableSort.SameKeyGroupsSameSort | Source/UI/ITab_ContentsStorage.cs:63-68 | inputs that list every equal-key group in the same order sort to the same list |
| StableSort.SameOrderIffSameKeyGroups | Source/UI/ITab_ContentsStorage.cs:63-68 | two inputs get the same order if and only if they list every equal-key group in the same order |
| StableSort.KeyBeforeMeansEarlier | Source/UI/ITab_ContentsStorage.cs:63-68 | a thing whose key is lexicographically smaller is placed earlier |
| StableSort.HigherQualityFirst | Source/UI/ITab_ContentsStorage.cs:63-67 | with the same category and label, a thing with a higher quality rank comes first |
| StableSort.QualityVersusUnqualified | Source/UI/ITab_ContentsStorage.cs:63-67 | with the same category and label, a thing with no quality comes after Good and better things and before Poor and Awful ones |
| StableSort.RotlessBeforePerishable | Source/UI/ITab_ContentsStorage.cs:68 | with the first three keys equal, a thing that cannot rot comes before every thing that can |
| StableSort.SoonerRotFirst | Source/UI/ITab_ContentsStorage.cs:68 | with the first three keys equal, the thing that rots sooner comes first, whatever either one's health |
| StableSort.FullHealthBeforeDamaged | Source/UI/ITab_ContentsStorage.cs:68 | with the first four keys equal, an undamaged thing comes before a damaged one |
| RowRenderer.DetailZoneInsideRow | Source/UI/ITab_ContentsStorage.cs:114-118 | any point in the map-highlight zone is also in the row, so highlighting the thing implies the selected background |
| RowRenderer.ControlsOutsideDetailZone | Source/UI/ITab_ContentsStorage.cs:126-149 | a point over the eject button, the forbid checkbox or the rot text is never in the map-highlight zone |
| RowRenderer.RowBackground | Source/UI/ITab_ContentsStorage.cs:116-123 | exactly one background applies: selected when hovered, else light on odd rows, else none on even rows |
| RowRenderer.Checkbox | Source/UI/ITab_ContentsStorage.cs:142 | the checkbox value changes exactly when it is clicked |
| Items.SetForbidden | Source/UI/ITab_ContentsStorage.cs:145 | `SetForbidden(…, false)` sets the flag of a thing with `CompForbiddable` and changes nothing about any thing, forbiddable or not, except that flag |
| Items.IsForbidden | Source/UI/ITab_ContentsStorage.cs:139 | only a thing with `CompForbiddable` can be forbidden |
| RowRenderer.ForbidRequest | Source/UI/ITab_ContentsStorage.cs:139-146 | `SetForbidden` is requested only when the checkbox value changed, and always with the negated checkbox value |
| RowRenderer.ForbidApplied | Source/UI/ITab_ContentsStorage.cs:143-146 | applying the row's request changes at most the forbid flag, and leaves the thing as it was when the checkbox value did not change |
| RowRenderer.ForbiddenAfterMatchesCheckbox | Source/UI/ITab_ContentsStorage.cs:139-146 | after the row, a forbiddable thing is forbidden exactly when its checkbox shows "not allowed"; a thing without `CompForbiddable` is unchanged |
| RowRenderer.ToggleTwiceRestores | Source/UI/ITab_ContentsStorage.cs:139-146 | one click flips the flag of a forbiddable thing and leaves any other thing unchanged; two clicks restore every thing; no click requests nothing |
| RowRenderer.RotBandOf | Source/UI/ITab_ContentsStorage.cs:161-172 | the three bands cover every rate without overlap: below 0.001 frozen, from 0.001 to below 0.999 refrigerated, from 0.999 up not refrigerated |
| RowRenderer.RotBandMonotone | Source/UI/ITab_ContentsStorage.cs:161-172 | a faster rot rate never gives a colder band |
| RowRenderer.RotBandExamples | Source/UI/ITab_ContentsStorage.cs:161-172 | 0.0005 is frozen, 0.001 and 0.5 refrigerated, 0.999 and 1.0 not refrigerated |
| RowRenderer.RotTooltip | Source/UI/ITab_ContentsStorage.cs:150-174 | a rot tooltip is shown exactly for things that can rot, and its band is the rate's band |
| RowRenderer.EjectCalls | Source/UI/ITab_ContentsStorage.cs:127-134 | with no click nothing is ejected; a click asks the cellar exactly when the building is an outdoor cellar, and the hidden-contents release exactly when it has that component, cellar first |
| RowRenderer.DoRow | Source/UI/ITab_ContentsStorage.cs:111-194 | a row advances the cursor by exactly 28; it is drawn selected exactly when hovered, else light exactly on odd rows; it highlights the thing exactly when the mouse is over the detail zone; it requests the negated forbidden state exactly on a checkbox click; it shows a rot tooltip exactly for rottable things, carrying the rate's band; without a click it ejects nothing, and a click asks the cellar exactly for an outdoor cellar and releases hidden contents exactly when the building has that component |
| ListView.ListContainedItems | Source/UI/ITab_ContentsStorage.cs:72-109 | the heading shows the number of things and `maxItemsInCell × slot cells`, with the temperature exactly for the outdoor cellar; no things gives the "none" label; otherwise row k is `DoRow` of the k-th thing at heading end + 28·k, and the cursor ends at heading end + 28·n, the scroll content height |
| ListView.Capacity | Source/UI/ITab_ContentsStorage.cs:21 | `MaxStoredItems` is the per-cell limit times the number of slot cells as an unchecked 32-bit `int`: it lies in the `int` range and is congruent to the exact product modulo 2^32; while the product fits, it is zero exactly when the building has no slot cells or takes no thing per cell, and otherwise at least the per-cell limit |
| ListView.WrapInt32 | Source/UI/ITab_ContentsStorage.cs:21 | an unchecked conversion to `int` yields the value in [-2^31, 2^31) congruent to the exact one modulo 2^32, and leaves in-range values unchanged |
| ListView.CapacityWraps | Source/UI/ITab_ContentsStorage.cs:21 | 65536 per cell over 65536 cells shows a capacity of 0, and over 32768 cells one of -2^31 |
| ListView.DoItemsLists | Source/UI/ITab_ContentsStorage.cs:60-70 | the list fails before drawing, cursor unmoved, exactly when a thing has zero max hit points; otherwise the heading shows the number of things, the capacity and the temperature exactly for the outdoor cellar; no things gives the "none" label and the cursor moves past it; otherwise the content height is 28 per thing and the rows are the `DoRow` rows of the contents in sorted order |
| ListView.AtMostOneRowHovered | Source/UI/ITab_ContentsStorage.cs:114-118 | rows stacked 28 apart do not overlap, so the mouse is over at most one |
| ListView.AtMostOneSelectedRow | Source/UI/ITab_ContentsStorage.cs:96-123 | in a laid-out list at most one row is drawn selected, and every other row gets the light highlight exactly when its index is odd |
| Panel.FillTab | Source/UI/ITab_ContentsStorage.cs:45-58 | the buffer is empty at the end of every frame; the list, drawn from cursor 0, fails exactly when a thing has zero max hit points, and otherwise shows the number of things, the capacity and the temperature exactly for the outdoor cellar, the "none" label exactly for no things, and else the `DoRow` rows of the sorted contents from the heading's end; "select now" is called exactly when the list was drawn and something was marked this frame, with exactly those things |

## Left out

- Drawing and widgets are not modelled. This covers `Widgets.*`, `GUI.*`, `Text.*`, tooltips, `Translate()` and the scroll-view state. Only the decisions they are fed are modelled.
- The info card button (line 115) is not modelled. It opens an engine window and changes no state the tab reads.
- The `IsVisible` and `VisibleInBlueprintMode` gating is not modelled. It is host visibility, not tab logic.
- The heading text is not modelled. Only its figures are: the count, the capacity (`MaxStoredItems`, line 21) and whether a temperature is shown. The number formatting, the temperature string and the hover tooltip are drawing.
- ListView.ListContainedItems: the heading count is the length of the sorted list. The code reads `container.Count`, which is the same frame's snapshot of the same things, since sorting neither adds nor drops any.
- ListView.ListContainedItems: the mouse is given in the list's own coordinates. The scroll offset and the group translation are engine state and are not modelled.
- `Thing.IsForbidden(Faction.OfPlayer)` is modelled as the `CompForbiddable` flag alone. Its other checks are engine code that is not part of this model.
- Label truncation and the label and icon rectangles are not modelled. They only place text.
- Engine lookups are inputs, not computations. `TryGetQuality`, `TryGetComp<CompRottable>` and `TicksUntilRotAtCurrentTemp` are fields of `Item`; `RotRateAtTemperature(RoundToInt(AmbientTemperature))` is a field of `RowInput`; the heights of the heading separator and of the "none" label are fields of `ListInput`. Hover is computed from the mouse point alone: input that the engine blocks is represented by a mouse point outside every row.
- Ordering.CompareLabel: compares labels ordinally, by character code. The source's default string comparer is culture-sensitive. Its ordering is a host setting and is not available here.
- RowRenderer.RotBandOf: uses the exact reals 1/1000 and 999/1000. The source compares a `float` against the float constants `0.001f` and `0.999f`, and float rounding is not modelled.
- ListView.ListContainedItems: the cursor is an exact real. The source's `float` cursor stays exact for multiples of 28 only up to about 2^24 / 28 rows.
- ListView.ListContainedItems: a null entry in the list would skip its row (line 100). Nulls cannot reach the loop, because the sort's key selectors would already have thrown on them, so items are non-null here.
- The effects of eject and of "select now" are external mutations and are not modelled. This covers `Building_CellarOutdoor.EjectThing`, `CompStorageHiddenContents.EjectThing` and `ITab_Pawn_FormingCaravan.SelectNow`; the model states only whether they are called and with what argument. The effect of `ForbidUtility.SetForbidden` on the `CompForbiddable` flag is modelled (`Items.SetForbidden`); whatever else it does inside the engine is not.
- The exact sorting algorithm is not modelled. LINQ's `OrderBy` is a stable sort whose internal algorithm differs from insertion sort. Stability makes the output unique (`StableSort.OrderItemsUnique`), so any stable sort gives the same list.
- StableSort.OrderItems: hit points are unbounded integers. In C#, `HitPoints / MaxHitPoints` also throws when `HitPoints` is `int.MinValue` and `MaxHitPoints` is -1 (the quotient overflows). The model fails only on a zero `MaxHitPoints`, since the engine never produces negative hit points.
