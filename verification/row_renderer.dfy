/** The decisions `DoRow` takes while drawing one stored thing: the row's
    hit regions, its background, the forbid toggle, the rot tooltip band,
    the eject requests, and the cursor advance. Drawing itself is not
    modelled; mouse position, clicks and the rot rate are inputs. */
module RowRenderer {
  import opened Options
  import opened Items

  const RowHeight: real := 28.0
  const ButtonSize: real := 24.0

  datatype Point = Point(x: real, y: real)

  /** A Unity rectangle; `Contains` is half-open on both axes. */
  datatype Rect = Rect(x: real, y: real, width: real, height: real) {
    predicate Contains(p: Point)
    {
      x <= p.x < x + width && y <= p.y < y + height
    }
  }

  // ---------------------------------------------------------------------
  // Row geometry, with the row's top at `curY` and full width `width`.

  function RowRect(curY: real, width: real): Rect
  {
    Rect(0.0, curY, width, RowHeight)
  }

  function EjectButtonRect(curY: real, width: real): Rect
  {
    Rect(width - ButtonSize, curY, ButtonSize, ButtonSize)
  }

  function ForbidButtonRect(curY: real, width: real): Rect
  {
    Rect(width - 2.0 * ButtonSize, curY, ButtonSize, ButtonSize)
  }

  function SpoilTextRect(curY: real, width: real): Rect
  {
    Rect(width - 5.0 * ButtonSize, curY, 3.0 * ButtonSize, ButtonSize)
  }

  /** The part of the row that highlights the thing on the map and shows its
      description: everything left of the control cluster. */
  function DetailRect(curY: real, width: real): Rect
  {
    Rect(0.0, curY, width - 5.0 * ButtonSize, RowHeight)
  }

  /** Hovering the detail zone always hovers the row itself, so the map
      highlight never fires without the row's selected background. */
  lemma DetailZoneInsideRow(curY: real, width: real, p: Point)
    ensures DetailRect(curY, width).Contains(p) ==> RowRect(curY, width).Contains(p)
  {
  }

  /** The eject button, the forbid checkbox and the rot text lie outside the
      detail zone: pointing at a control never highlights the thing. */
  lemma ControlsOutsideDetailZone(curY: real, width: real, p: Point)
    requires || EjectButtonRect(curY, width).Contains(p)
             || ForbidButtonRect(curY, width).Contains(p)
             || SpoilTextRect(curY, width).Contains(p)
    ensures !DetailRect(curY, width).Contains(p)
  {
  }

  // ---------------------------------------------------------------------
  // Background.

  datatype Background = SelectedHighlight | LightHighlight | NoHighlight

  /** A hovered row is drawn selected; otherwise odd rows get the light
      alternating highlight and even rows none. */
  function RowBackground(hovered: bool, index: nat): (b: Background)
    ensures b == SelectedHighlight <==> hovered
    ensures b == LightHighlight <==> !hovered && index % 2 == 1
    ensures b == NoHighlight <==> !hovered && index % 2 == 0
  {
    if hovered then SelectedHighlight
    else if index % 2 == 1 then LightHighlight
    else NoHighlight
  }

  // ---------------------------------------------------------------------
  // Forbid checkbox.

  /** The checkbox widget flips its value when clicked. */
  function Checkbox(value: bool, clicked: bool): (after: bool)
    ensures after != value <==> clicked
  {
    if clicked then !value else value
  }

  /** The `SetForbidden` call the row issues, given whether the thing shows
      as forbidden and the checkbox value after the widget ran: None when the
      value did not change, otherwise the new forbidden flag, the negation of
      the checkbox. */
  function ForbidRequest(forbidden: bool, allowAfter: bool): (r: Option<bool>)
    ensures r.Some? <==> allowAfter != !forbidden
    ensures r.Some? ==> r.value == !allowAfter
  {
    var allowBefore := !forbidden;
    if allowAfter != allowBefore then Some(!allowAfter) else None
  }

  /** The thing once the request, if any, has been applied. */
  function ForbidApplied(it: Item, allowAfter: bool): (r: Item)
    ensures r.(forbidComp := it.forbidComp) == it
    ensures allowAfter == !IsForbidden(it) ==> r == it
  {
    match ForbidRequest(IsForbidden(it), allowAfter)
    case None => it
    case Some(f) => SetForbidden(it, f)
  }

  /** After the row ran, a forbiddable thing is forbidden exactly when the
      checkbox shows it not allowed; a thing without the component is left
      as it was, whatever the checkbox shows. */
  lemma ForbiddenAfterMatchesCheckbox(it: Item, allowAfter: bool)
    ensures it.forbidComp.Some? ==> IsForbidden(ForbidApplied(it, allowAfter)) == !allowAfter
    ensures it.forbidComp.None? ==> ForbidApplied(it, allowAfter) == it
  {
  }

  /** One click on the checkbox of the thing's row. */
  function ClickForbid(it: Item): Item
  {
    ForbidApplied(it, Checkbox(!IsForbidden(it), true))
  }

  /** A click flips the flag of a forbiddable thing and leaves any other
      thing as it was, so two clicks always restore the thing; without a
      click nothing is requested. */
  lemma ToggleTwiceRestores(it: Item)
    ensures it.forbidComp.Some? ==> IsForbidden(ClickForbid(it)) == !IsForbidden(it)
    ensures it.forbidComp.None? ==> ClickForbid(it) == it
    ensures ClickForbid(ClickForbid(it)) == it
    ensures ForbidRequest(IsForbidden(it), Checkbox(!IsForbidden(it), false)) == None
  {
    if it.forbidComp.Some? {
      var f := it.forbidComp.value;
      assert ClickForbid(it) == it.(forbidComp := Some(!f));
      assert ClickForbid(it.(forbidComp := Some(!f))) == it.(forbidComp := Some(f));
    }
  }

  // ---------------------------------------------------------------------
  // Rot tooltip.

  datatype RotBand = Frozen | Refrigerated | NotRefrigerated

  const FrozenBelow: real := 1.0 / 1000.0
  const RefrigeratedBelow: real := 999.0 / 1000.0

  /** The tooltip band for a rot rate. Each bound belongs to the band above
      it because both tests are strict. */
  function RotBandOf(rate: real): (b: RotBand)
    ensures b == Frozen <==> rate < FrozenBelow
    ensures b == Refrigerated <==> FrozenBelow <= rate < RefrigeratedBelow
    ensures b == NotRefrigerated <==> RefrigeratedBelow <= rate
  {
    if rate < FrozenBelow then Frozen
    else if rate < RefrigeratedBelow then Refrigerated
    else NotRefrigerated
  }

  function BandRank(b: RotBand): int
  {
    match b
    case Frozen => 0
    case Refrigerated => 1
    case NotRefrigerated => 2
  }

  /** A faster rot rate never gives a colder band. */
  lemma RotBandMonotone(slower: real, faster: real)
    requires slower <= faster
    ensures BandRank(RotBandOf(slower)) <= BandRank(RotBandOf(faster))
  {
  }

  lemma RotBandExamples()
    ensures RotBandOf(0.0005) == Frozen
    ensures RotBandOf(0.001) == Refrigerated
    ensures RotBandOf(0.5) == Refrigerated
    ensures RotBandOf(0.999) == NotRefrigerated
    ensures RotBandOf(1.0) == NotRefrigerated
  {
  }

  /** The rot text and its tooltip appear only for a thing that can rot. */
  function RotTooltip(it: Item, rate: real): (r: Option<RotBand>)
    ensures r.Some? <==> it.rotTicks.Some?
    ensures r.Some? ==> r.value == RotBandOf(rate)
  {
    if it.rotTicks.Some? then Some(RotBandOf(rate)) else None
  }

  // ---------------------------------------------------------------------
  // Eject button.

  datatype EjectCall = CellarEject | HiddenContentsEject

  /** The eject requests one click issues: the root cellar's own eject when
      the building is an outdoor cellar, then the hidden-contents release
      when the building carries that component. */
  function EjectCalls(c: Container, clicked: bool): (r: seq<EjectCall>)
    ensures !clicked ==> r == []
    ensures clicked ==> (CellarEject in r <==> c.kind == OutdoorCellar)
    ensures clicked ==> (HiddenContentsEject in r <==> c.hasHiddenContents)
    ensures forall i, j | 0 <= i < j < |r| :: r[i] == CellarEject && r[j] == HiddenContentsEject
  {
    if !clicked then []
    else
      (if c.kind == OutdoorCellar then [CellarEject] else [])
      + (if c.hasHiddenContents then [HiddenContentsEject] else [])
  }

  // ---------------------------------------------------------------------
  // One row.

  /** What the user and the engine supply for one row in one frame. */
  datatype RowInput = RowInput(
    mouse: Point,
    ejectClicked: bool,
    checkboxClicked: bool,
    rotRate: real)

  /** Everything the row decides: its background, the requests it issues,
      its rot tooltip, whether it highlights the thing, and the cursor it
      leaves for the next row. */
  datatype RowOutcome = RowOutcome(
    background: Background,
    ejectCalls: seq<EjectCall>,
    forbidRequest: Option<bool>,
    rotTooltip: Option<RotBand>,
    highlightsThing: bool,
    nextY: real)

  function DoRow(it: Item, c: Container, width: real, index: nat, curY: real,
                 input: RowInput): (o: RowOutcome)
    ensures o.nextY == curY + RowHeight
    ensures o.background == SelectedHighlight <==> RowRect(curY, width).Contains(input.mouse)
    ensures o.background == LightHighlight
        <==> !RowRect(curY, width).Contains(input.mouse) && index % 2 == 1
    ensures o.highlightsThing ==> o.background == SelectedHighlight
    ensures o.forbidRequest.Some? <==> input.checkboxClicked
    ensures o.forbidRequest.Some? ==> o.forbidRequest.value == !IsForbidden(it)
    ensures o.rotTooltip.Some? <==> it.rotTicks.Some?
    ensures !input.ejectClicked ==> o.ejectCalls == []
    ensures input.ejectClicked ==>
      && (CellarEject in o.ejectCalls <==> c.kind == OutdoorCellar)
      && (HiddenContentsEject in o.ejectCalls <==> c.hasHiddenContents)
    ensures o.highlightsThing <==> DetailRect(curY, width).Contains(input.mouse)
    ensures o.rotTooltip.Some? ==> o.rotTooltip.value == RotBandOf(input.rotRate)
  {
    var hovered := RowRect(curY, width).Contains(input.mouse);
    var allowAfter := Checkbox(!IsForbidden(it), input.checkboxClicked);
    var highlight := DetailRect(curY, width).Contains(input.mouse);
    DetailZoneInsideRow(curY, width, input.mouse);
    RowOutcome(
      RowBackground(hovered, index),
      EjectCalls(c, input.ejectClicked),
      ForbidRequest(IsForbidden(it), allowAfter),
      RotTooltip(it, input.rotRate),
      highlight,
      curY + RowHeight)
  }
}
