/**
 * Concrete walkthroughs of the widget on its default four pages, stated on
 * the functions the hooks' handlers are specified by, and a client of the
 * drag tracker that relies on its contracts alone.
 */
module Scenarios {
  import opened Optional
  import opened Text
  import opened PageList
  import opened Pages
  import opened DragDrop

  function Info(): Page { Page("info", "Info") }
  function Details(): Page { Page("details", "Details") }
  function Other(): Page { Page("other", "Other") }
  function Ending(): Page { Page("ending", "Ending") }

  /** The "+" between Details and Other (index 1) puts "New Page" third. */
  lemma AddAfterDetails()
    ensures var r := InsertAt(DefaultPages(), SpliceStart(4, 1 + 1), Page(NewPageId("1"), "New Page"));
      |r| == 5 && r[0] == Info() && r[1] == Details() && r[2] == Page("page-1", "New Page") &&
      r[3] == Other() && r[4] == Ending()
  {
    assert SpliceStart(4, 2) == 2;
    assert NewPageId("1") == "page-1";
  }

  /** "Set as first page" on Ending gives Ending, Info, Details, Other. */
  lemma SetEndingFirst()
    ensures MoveToFirst(DefaultPages(), "ending") == [Ending(), Info(), Details(), Other()]
  {
    var ps := DefaultPages();
    assert ps[1..][1..][1..] == [Ending()];
    assert Find(ps[1..][1..][1..], "ending") == Some(Ending());
    assert RemoveId(ps[1..][1..][1..], "ending") == [];
    assert RemoveId(ps[1..][1..], "ending") == [Other()];
    assert RemoveId(ps[1..], "ending") == [Details(), Other()];
  }

  /** Deleting Info leaves Details, Other, Ending, so an active Info falls back to "details". */
  lemma DeleteInfo()
    ensures RemoveId(DefaultPages(), "info") == [Details(), Other(), Ending()]
    ensures RemoveId(DefaultPages(), "info")[0].id == "details"
  {
    assert RemoveId(DefaultPages(), "info") == RemoveId(DefaultPages()[1..], "info");
    assert DefaultPages()[1..] == [Details(), Other(), Ending()];
    RemoveIdAbsent([Details(), Other(), Ending()], "info");
  }

  /** A blank buffer trims to nothing, so submitting it renames no page. */
  lemma BlankBufferIsIgnored()
    ensures Trim(" \t") == ""
  {
    assert TrimStart(" \t") == TrimStart("\t") == TrimStart("") == "";
  }

  /** A menu string outside the five selects nothing. */
  lemma UnknownActionIsIgnored()
    ensures ParseAction("archive") == None
  {
  }

  /** Dragging Info onto the right half of Other requests a move from 0 to 2, which yields Details, Other, Info, Ending. */
  lemma DragInfoAfterOther()
    ensures DropCall(Some(0), Some(After), 2) == Some(ReorderCall(0, 2))
    ensures SpliceMove(DefaultPages(), 0, 2) == [Details(), Other(), Info(), Ending()]
  {
    assert DefaultPages()[1..] == [Details(), Other(), Ending()];
  }

  /** A gesture driven through the tracker's handlers, with a reorder callback that returns. */
  method DragWalkthrough()
  {
    var d := new DragTracker();
    d.HandleDragStart(0);
    d.HandleDragOver(2, 30.0, 0.0, 40.0);
    var call, threw := d.HandleDrop(2, false);
    assert call == Some(ReorderCall(0, 2)) && !threw && d.Idle();

    // the drop zone after the first page, with the second page dragged: a request from 1 to 1
    d.HandleDragStart(1);
    d.DropZoneHover(0, After);
    call, threw := d.HandleDrop(0, false);
    assert call == Some(ReorderCall(1, 1)) && d.Idle();

    // dropping a page onto itself issues nothing
    d.HandleDragStart(3);
    d.DropZoneHover(3, Before);
    call, threw := d.HandleDrop(3, false);
    assert call == None && d.Idle();

    // a drop with no drag in progress issues nothing
    call, threw := d.HandleDrop(1, false);
    assert call == None;
  }

  /**
   * With a reorder callback that throws (the navigation passes one the page
   * hook does not define), a drop that issues a request keeps the drag state;
   * only the drag-end handler clears it.
   */
  method DragWithThrowingCallback()
  {
    var d := new DragTracker();
    d.HandleDragStart(0);
    d.DropZoneHover(2, After);
    var call, threw := d.HandleDrop(2, true);
    assert call == Some(ReorderCall(0, 2)) && threw;
    assert d.draggedIndex == Some(0) && d.dropPosition == Some(After);
    d.ResetDragState();
    assert d.Idle();

    // a drop onto the dragged page calls nothing, so it resets at once
    d.HandleDragStart(1);
    call, threw := d.HandleDrop(1, true);
    assert call == None && !threw && d.Idle();
  }
}
