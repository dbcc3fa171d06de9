/** `FillTab`, the per-frame entry point of the storage tab, with the
    pending-selection buffer threaded through explicitly: it is cleared at
    the start of the frame, holds whatever the frame marks for selection,
    and is handed to the caravan "select now" service and cleared again. */
module Panel {
  import opened Options
  import opened Items
  import opened StableSort
  import opened ListView
  import opened RowRenderer

  /** What one frame leaves behind: the listing it drew (or the exception
      that ended it), the things passed to "select now" if any, and the
      selection buffer at the end of the frame. */
  datatype Frame = Frame(
    list: Result<Listing, SortError>,
    selectNow: Option<seq<Item>>,
    bufferAfter: seq<Item>)

  /** One frame. `marked` is what ends up in the buffer while the list is
      drawn. No code of this tab adds to the buffer, so in this tab it is
      always empty and "select now" never runs; the parameter keeps the
      buffer protocol of the tab visible. */
  method FillTab(c: Container, contents: seq<Item>, events: seq<RowEvents>,
                 marked: seq<Item>, input: ListInput)
    returns (frame: Frame)
    requires |events| == |contents|
    ensures frame.bufferAfter == []
    ensures frame.list.Failure? <==> exists it | it in contents :: it.maxHitPoints == 0
    ensures frame.selectNow.Some? <==> frame.list.Success? && marked != []
    ensures frame.selectNow.Some? ==> frame.selectNow.value == marked
    ensures frame.list.Success? ==>
      && frame.list.value.heading.count == |contents|
      && frame.list.value.heading.capacity == Capacity(c)
      && (frame.list.value.heading.showsTemperature <==> c.kind == OutdoorCellar)
      && (frame.list.value.body.NonePlaceholder? <==> contents == [])
    ensures frame.list.Success? && frame.list.value.body.ScrollRows? ==>
      && OrderItems(contents).Success?
      && frame.list.value.body.contentHeight == RowHeight * |contents| as real
      && LaidOut(frame.list.value.body.rows, OrderItems(contents).value, events, c,
                 input.headingHeight, input.inRectWidth - ScrollbarWidth, input.mouse)
  {
    // The buffer is cleared first (line 47), so nothing from an earlier
    // frame survives into this one.
    var buffer: seq<Item> := [];
    var list, curY := DoItemsLists(c, contents, events, 0.0, input);
    if list.Failure? {
      return Frame(list, None, buffer);
    }
    buffer := buffer + marked;
    var selectNow := None;
    if buffer != [] {
      selectNow := Some(buffer);
      buffer := [];
    }
    frame := Frame(list, selectNow, buffer);
  }
}
