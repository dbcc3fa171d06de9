/** The list part of the storage tab: the ordering step of `DoItemsLists`,
    then `ListContainedItems`, which draws the heading and either the "none"
    label or a scroll view that stacks one `DoRow` row per thing. */
module ListView {
  import opened Options
  import opened Items
  import opened StableSort
  import opened RowRenderer

  const ScrollbarWidth: real := 16.0

  const Int32Modulus: int := 0x1_0000_0000

  /** C#'s unchecked conversion of an exact integer to `int`: the value in
      [-2^31, 2^31) congruent to it modulo 2^32. */
  function WrapInt32(x: int): (w: int)
    ensures -0x8000_0000 <= w < 0x8000_0000
    ensures (x - w) % Int32Modulus == 0
    ensures -0x8000_0000 <= x < 0x8000_0000 ==> w == x
  {
    var m := x % Int32Modulus;
    if m < 0x8000_0000 then m else m - Int32Modulus
  }

  /** `MaxStoredItems`: the def's per-cell limit times the number of slot
      cells, an unchecked 32-bit `int` product. */
  function Capacity(c: Container): (n: int)
    ensures -0x8000_0000 <= n < 0x8000_0000
    ensures (c.maxItemsInCell * |c.slotCells| - n) % Int32Modulus == 0
    ensures c.maxItemsInCell * |c.slotCells| < 0x8000_0000 ==>
      && (n == 0 <==> c.maxItemsInCell == 0 || c.slotCells == [])
      && (c.slotCells != [] ==> n >= c.maxItemsInCell)
  {
    WrapInt32(c.maxItemsInCell * |c.slotCells|)
  }

  /** The product wraps: 65536 per cell over 65536 cells shows a capacity
      of 0, and 65536 per cell over 32768 cells a negative one. */
  lemma CapacityWraps(c: Container)
    requires c.maxItemsInCell == 0x1_0000
    ensures |c.slotCells| == 0x1_0000 ==> Capacity(c) == 0
    ensures |c.slotCells| == 0x8000 ==> Capacity(c) == -0x8000_0000
  {
  }

  /** The figures of the heading "(count / capacity items)", and whether
      the outdoor cellar's temperature is appended. */
  datatype Heading = Heading(count: nat, capacity: int, showsTemperature: bool)

  /** What the engine supplies for one frame of the list: the mouse position
      in the list's coordinates, the heights of the heading separator and of
      the "none" label, and the width of the list's rectangle. */
  datatype ListInput = ListInput(
    mouse: Point,
    headingHeight: real,
    noneLabelHeight: real,
    inRectWidth: real)

  /** What happens to the n-th listed row in this frame. */
  datatype RowEvents = RowEvents(ejectClicked: bool, checkboxClicked: bool, rotRate: real)

  function RowInputOf(mouse: Point, e: RowEvents): RowInput
  {
    RowInput(mouse, e.ejectClicked, e.checkboxClicked, e.rotRate)
  }

  /** One drawn row: its position in the list, its thing, its top, and what
      `DoRow` decided for it. */
  datatype RowSlot = RowSlot(index: nat, item: Item, top: real, outcome: RowOutcome)

  /** The body below the heading: the "none" label for an empty container,
      otherwise a scroll view of the given content height holding the rows. */
  datatype ListBody = NonePlaceholder | ScrollRows(contentHeight: real, rows: seq<RowSlot>)

  datatype Listing = Listing(heading: Heading, body: ListBody)

  /** Row k shows the k-th thing at `top + RowHeight * k`, drawn by `DoRow`
      with the k-th row's events. */
  ghost predicate LaidOut(rows: seq<RowSlot>, items: seq<Item>, events: seq<RowEvents>,
                          c: Container, top: real, width: real, mouse: Point)
  {
    && |rows| == |items| == |events|
    && forall k | 0 <= k < |rows| ::
         && rows[k].index == k
         && rows[k].item == items[k]
         && rows[k].top == top + RowHeight * k as real
         && rows[k].outcome == DoRow(items[k], c, width, k, rows[k].top, RowInputOf(mouse, events[k]))
  }

  /** `ListContainedItems` for the things in `items`, starting at cursor
      `curY0`. */
  method ListContainedItems(c: Container, items: seq<Item>, events: seq<RowEvents>,
                            curY0: real, input: ListInput)
    returns (listing: Listing, curY: real)
    requires |events| == |items|
    ensures listing.heading.count == |items| && listing.heading.capacity == Capacity(c)
    ensures listing.heading.showsTemperature <==> c.kind == OutdoorCellar
    ensures listing.body.NonePlaceholder? <==> |items| == 0
    ensures listing.body.NonePlaceholder? ==>
      curY == curY0 + input.headingHeight + input.noneLabelHeight
    ensures listing.body.ScrollRows? ==>
      && listing.body.contentHeight == RowHeight * |items| as real
      && |listing.body.rows| == listing.heading.count
      && LaidOut(listing.body.rows, items, events, c, curY0 + input.headingHeight,
                 input.inRectWidth - ScrollbarWidth, input.mouse)
      && curY == curY0 + input.headingHeight + listing.body.contentHeight
  {
    var width := input.inRectWidth - ScrollbarWidth;
    var heading := Heading(|items|, Capacity(c), c.kind == OutdoorCellar);
    var top := curY0 + input.headingHeight;
    if |items| == 0 {
      return Listing(heading, NonePlaceholder), top + input.noneLabelHeight;
    }
    var contentHeight := RowHeight * |items| as real;
    var rows: seq<RowSlot> := [];
    curY := top;
    var i := 0;
    while i < |items|
      invariant 0 <= i <= |items|
      invariant |rows| == i
      invariant LaidOut(rows, items[..i], events[..i], c, top, width, input.mouse)
      invariant curY == top + RowHeight * i as real
    {
      var outcome := DoRow(items[i], c, width, i, curY, RowInputOf(input.mouse, events[i]));
      rows := rows + [RowSlot(i, items[i], curY, outcome)];
      curY := outcome.nextY;
      i := i + 1;
    }
    assert items[..i] == items && events[..i] == events;
    listing := Listing(heading, ScrollRows(contentHeight, rows));
  }

  /** `DoItemsLists`: order the container's contents, then list them. The
      ordering's division by zero escapes before anything is drawn, leaving
      the cursor where it was. */
  method DoItemsLists(c: Container, contents: seq<Item>, events: seq<RowEvents>,
                      curY0: real, input: ListInput)
    returns (r: Result<Listing, SortError>, curY: real)
    requires |events| == |contents|
    ensures r.Failure? <==> exists it | it in contents :: it.maxHitPoints == 0
    ensures r.Failure? ==> curY == curY0
    ensures r.Success? ==> r.value.heading.count == |contents|
    ensures r.Success? ==> r.value.heading.capacity == Capacity(c)
    ensures r.Success? ==> (r.value.heading.showsTemperature <==> c.kind == OutdoorCellar)
    ensures r.Success? && r.value.body.NonePlaceholder? ==>
      curY == curY0 + input.headingHeight + input.noneLabelHeight
    ensures r.Success? ==> (r.value.body.NonePlaceholder? <==> contents == [])
    ensures r.Success? && r.value.body.ScrollRows? ==>
      && OrderItems(contents).Success?
      && r.value.body.contentHeight == RowHeight * |contents| as real
      && LaidOut(r.value.body.rows, OrderItems(contents).value, events, c,
                 curY0 + input.headingHeight, input.inRectWidth - ScrollbarWidth, input.mouse)
      && curY == curY0 + input.headingHeight + RowHeight * |contents| as real
  {
    var ordered := OrderItems(contents);
    if ordered.Failure? {
      return Failure(ordered.error), curY0;
    }
    var listing;
    listing, curY := ListContainedItems(c, ordered.value, events, curY0, input);
    r := Success(listing);
  }

  /** Rows stacked at `top + RowHeight * index` do not overlap, so the mouse
      is over at most one of them. */
  lemma AtMostOneRowHovered(top: real, width: real, mouse: Point, i: nat, j: nat)
    requires RowRect(top + RowHeight * i as real, width).Contains(mouse)
    requires RowRect(top + RowHeight * j as real, width).Contains(mouse)
    ensures i == j
  {
  }

  /** In a laid-out list at most one row is drawn selected; every other row
      gets the light highlight exactly when its index is odd. */
  lemma AtMostOneSelectedRow(rows: seq<RowSlot>, items: seq<Item>, events: seq<RowEvents>,
                             c: Container, top: real, width: real, mouse: Point, i: int, j: int)
    requires LaidOut(rows, items, events, c, top, width, mouse)
    requires 0 <= i < |rows| && 0 <= j < |rows|
    requires rows[i].outcome.background == SelectedHighlight
    ensures rows[j].outcome.background == SelectedHighlight ==> i == j
    ensures i != j ==> (rows[j].outcome.background == LightHighlight <==> j % 2 == 1)
  {
    if rows[j].outcome.background == SelectedHighlight {
      AtMostOneRowHovered(top, width, mouse, i, j);
    }
  }
}
