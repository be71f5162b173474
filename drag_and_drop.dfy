/**
 * The drag-and-drop hook (`useDragAndDrop`): the transient state of one drag
 * gesture and the index arithmetic that turns a drop into a reorder request.
 * The hook knows indices only, never pages.
 */
module DragDrop {
  import opened Optional

  /** Which side of the hovered item the pointer is on. */
  datatype DropPosition = Before | After

  /** The request the drop handler passes to the reorder callback. */
  datatype ReorderCall = ReorderCall(fromIndex: int, toIndex: int)

  /**
   * Side selection of the drag-over handler, for an element whose box starts
   * at `left` and is `width` wide: left of the midpoint is `Before`, the
   * midpoint itself and anything right of it is `After`.
   */
  function SideOf(clientX: real, left: real, width: real): DropPosition
  {
    if clientX < left + width / 2.0 then Before else After
  }

  /** A pointer exactly on the midpoint selects `After`. */
  lemma SideOfMidpoint(left: real, width: real)
    ensures SideOf(left + width / 2.0, left, width) == After
  {
  }

  /** Moving the pointer left never turns `Before` into `After`, nor right `After` into `Before`. */
  lemma SideOfMonotone(x: real, y: real, left: real, width: real)
    requires x <= y
    ensures SideOf(y, left, width) == Before ==> SideOf(x, left, width) == Before
    ensures SideOf(x, left, width) == After ==> SideOf(y, left, width) == After
  {
  }

  /** On a box of positive width the left edge is `Before` and the right edge `After`. */
  lemma SideOfEdges(left: real, width: real)
    requires width > 0.0
    ensures SideOf(left, left, width) == Before
    ensures SideOf(left + width, left, width) == After
  {
  }

  /**
   * The gap the user points at, counted in the list before the dragged page
   * is taken out: gap `g` lies just before the item at index `g`.
   */
  function Gap(dropIndex: int, position: Option<DropPosition>): int
  {
    if position == Some(After) then dropIndex + 1 else dropIndex
  }

  /**
   * The target index of the drop handler: the gap, less one when the dragged
   * page sits before it (its removal shifts the gap left by one).
   */
  function TargetIndex(dragged: int, dropIndex: int, position: Option<DropPosition>): int
  {
    var g := Gap(dropIndex, position);
    if dragged < g then g - 1 else g
  }

  /**
   * What a drop on `dropIndex` passes to the reorder callback: nothing when no
   * drag is in progress or the raw drop index is the dragged index; otherwise
   * the dragged index and the target index.
   */
  function DropCall(dragged: Option<int>, position: Option<DropPosition>, dropIndex: int): (r: Option<ReorderCall>)
    ensures r.Some? <==> dragged.Some? && dragged.value != dropIndex
    ensures r.Some? ==> r.value.fromIndex == dragged.value
  {
    if dragged.Some? && dragged.value != dropIndex then
      Some(ReorderCall(dragged.value, TargetIndex(dragged.value, dropIndex, position)))
    else
      None
  }

  /**
   * For dragged and drop indices within a list of `n` pages the target is a
   * valid position of the list after the dragged page is removed.
   */
  lemma TargetInRange(n: int, dragged: int, dropIndex: int, position: Option<DropPosition>)
    requires 0 <= dragged < n && 0 <= dropIndex < n
    ensures 0 <= TargetIndex(dragged, dropIndex, position) <= n - 1
  {
  }

  /** Every reorder request made for in-range indices has both indices in range. */
  lemma DropCallInRange(n: int, dragged: int, dropIndex: int, position: Option<DropPosition>)
    requires 0 <= dragged < n && 0 <= dropIndex < n
    ensures var r := DropCall(Some(dragged), position, dropIndex);
      r.Some? ==> 0 <= r.value.fromIndex < n && 0 <= r.value.toIndex <= n - 1
  {
    TargetInRange(n, dragged, dropIndex, position);
  }

  /** The guard on the raw drop index only suppresses requests whose target would be the dragged index anyway. */
  lemma GuardSuppressesOnlyIdentity(dragged: int, position: Option<DropPosition>)
    ensures TargetIndex(dragged, dragged, position) == dragged
  {
  }

  /**
   * The guard does not catch every identity request: once the drop index
   * differs from the dragged index, the target equals the dragged index
   * exactly for "after the item just before" and "before the item just after".
   */
  lemma IdentityRequestIff(dragged: int, dropIndex: int, position: Option<DropPosition>)
    requires dropIndex != dragged
    ensures TargetIndex(dragged, dropIndex, position) == dragged <==>
      (position == Some(After) && dropIndex == dragged - 1) ||
      (position != Some(After) && dropIndex == dragged + 1)
  {
  }

  /** Dragging index 1 and dropping after index 0 requests a move from 1 to 1. */
  lemma IdentityRequestExample()
    ensures DropCall(Some(1), Some(After), 0) == Some(ReorderCall(1, 1))
  {
  }

  /**
   * Splice-remove-then-splice-insert: the item at `from` is taken out and put
   * back at `to` of the shortened list. This is the reorder semantics the
   * target index is designed for; it is a reference for the lemma below, not
   * a model of any code of the widget.
   */
  function SpliceMove<T>(s: seq<T>, from: nat, to: nat): (r: seq<T>)
    requires from < |s| && to < |s|
    ensures |r| == |s| && r[to] == s[from]
  {
    var rest := s[..from] + s[from + 1..];
    rest[..to] + [s[from]] + rest[to..]
  }

  /** Moving an item loses and duplicates nothing. */
  lemma {:induction false} SpliceMovePermutes<T>(s: seq<T>, from: nat, to: nat)
    requires from < |s| && to < |s|
    ensures multiset(SpliceMove(s, from, to)) == multiset(s)
  {
    var rest := s[..from] + s[from + 1..];
    calc {
      multiset(SpliceMove(s, from, to));
      multiset(rest[..to]) + multiset{s[from]} + multiset(rest[to..]);
      { assert rest == rest[..to] + rest[to..]; }
      multiset(rest) + multiset{s[from]};
      { assert s == s[..from] + [s[from]] + s[from + 1..]; }
      multiset(s);
    }
  }

  /**
   * The meaning of the target index, including its removal compensation:
   * moving the dragged item to the target puts it into the gap the user
   * pointed at, right after the item that was before the gap and right
   * before the item that was after it.
   */
  lemma {:induction false} TargetLandsInGap<T>(s: seq<T>, dragged: int, dropIndex: int, position: Option<DropPosition>)
    requires 0 <= dragged < |s| && 0 <= dropIndex < |s|
    ensures var g := Gap(dropIndex, position);
      var t := TargetIndex(dragged, dropIndex, position);
      0 <= t < |s| &&
      (0 <= g < |s| && g != dragged ==> t + 1 < |s| && SpliceMove(s, dragged, t)[t + 1] == s[g]) &&
      (0 < g <= |s| && g - 1 != dragged ==> 0 < t && SpliceMove(s, dragged, t)[t - 1] == s[g - 1])
  {
    var g := Gap(dropIndex, position);
    var t := TargetIndex(dragged, dropIndex, position);
    var rest := s[..dragged] + s[dragged + 1..];
    var r := SpliceMove(s, dragged, t);
    assert r == rest[..t] + [s[dragged]] + rest[t..];
    // the neighbours of the gap, seen in the shortened list
    if 0 <= g < |s| && g != dragged {
      assert r[t + 1] == rest[t];
      assert rest[t] == s[g];
    }
    if 0 < g <= |s| && g - 1 != dragged {
      assert r[t - 1] == rest[t - 1];
      assert rest[t - 1] == s[g - 1];
    }
  }

  class DragTracker {
    var draggedIndex: Option<int>
    var dragOverIndex: Option<int>
    var dropPosition: Option<DropPosition>

    /** No gesture in progress: every field is cleared. */
    predicate Idle()
      reads this
    {
      draggedIndex == None && dragOverIndex == None && dropPosition == None
    }

    /** The hook starts idle. */
    constructor ()
      ensures Idle()
    {
      draggedIndex, dragOverIndex, dropPosition := None, None, None;
    }

    /** `resetDragState`, which is also the drag-end handler: all fields are cleared. */
    method ResetDragState()
      modifies this
      ensures Idle()
    {
      draggedIndex, dragOverIndex, dropPosition := None, None, None;
    }

    /** `handleDragStart(index)`: records the dragged index; the hover fields are kept. */
    method HandleDragStart(index: int)
      modifies this
      ensures draggedIndex == Some(index)
      ensures dragOverIndex == old(dragOverIndex) && dropPosition == old(dropPosition)
    {
      draggedIndex := Some(index);
    }

    /**
     * `handleDragOver(index)` on a page whose box starts at `left` and is
     * `width` wide: records the hovered index and the side the pointer is on.
     */
    method HandleDragOver(index: int, clientX: real, left: real, width: real)
      modifies this
      ensures dragOverIndex == Some(index)
      ensures dropPosition == Some(SideOf(clientX, left, width))
      ensures draggedIndex == old(draggedIndex)
    {
      var position := SideOf(clientX, left, width);
      dragOverIndex, dropPosition := Some(index), Some(position);
    }

    /**
     * The over and enter handlers of a drop zone made for `(index, position)`:
     * both record that index and side.
     */
    method DropZoneHover(index: int, position: DropPosition)
      modifies this
      ensures dragOverIndex == Some(index) && dropPosition == Some(position)
      ensures draggedIndex == old(draggedIndex)
    {
      dragOverIndex, dropPosition := Some(index), Some(position);
    }

    /**
     * `handleDrop(dropIndex)`: returns the reorder request the drop issues, if
     * any, computed from the state before the drop. The request is a call of
     * the reorder callback, and `callbackThrows` says whether that call
     * throws. The state is reset after the callback returns, or at once when
     * no request is issued. A throwing callback skips the reset and leaves
     * the state as it was; `threw` reports that.
     */
    method HandleDrop(dropIndex: int, callbackThrows: bool) returns (call: Option<ReorderCall>, threw: bool)
      modifies this
      ensures call == DropCall(old(draggedIndex), old(dropPosition), dropIndex)
      ensures threw <==> call.Some? && callbackThrows
      ensures !threw ==> Idle()
      ensures threw ==>
        draggedIndex == old(draggedIndex) && dragOverIndex == old(dragOverIndex) &&
        dropPosition == old(dropPosition)
    {
      var dragged, position := draggedIndex, dropPosition;
      call, threw := None, false;
      if dragged.Some? && dragged.value != dropIndex {
        var targetIndex := dropIndex;
        if position == Some(After) {
          targetIndex := dropIndex + 1;
        }
        if dragged.value < targetIndex {
          targetIndex := targetIndex - 1;
        }
        call := Some(ReorderCall(dragged.value, targetIndex));
        if callbackThrows {
          threw := true;
          return;
        }
      }
      ResetDragState();
    }
  }
}
