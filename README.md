# Page-tab widget: page collection and drag reorder

This project models the two state containers of a page-tab strip: the page
hook `usePages` and the drag hook `useDragAndDrop`. Everything else in the
widget only renders.

- **Page hook.** It holds an ordered list of pages (`{id, name}`), the
  active page id, the id of the page being renamed (if any) and the rename
  buffer. Its handlers do the following:
  - insert a "New Page" after an index;
  - start, submit and cancel a rename;
  - move a page to the front;
  - copy or duplicate a page right after itself;
  - delete a page;
  - dispatch the five menu action strings.
- **Drag hook.** It holds the dragged index, the hovered index and the
  hovered side. On a drop it computes the target index the reorder callback
  receives, calls the callback, then resets its state.

Layout:

- `optional.dfy`: the `Option` type. It models `null` in the hooks' state.
- `text.dfy` (module `Text`): JavaScript `String.prototype.trim` over the
  ECMAScript WhiteSpace and LineTerminator code points.
- `page_list.dfy` (module `PageList`): the page record and the array
  operations the page hook applies. Each is a pure function with its
  properties proved as lemmas:
  - `find`, `findIndex`;
  - `map` for rename, `filter` for delete;
  - move-to-front;
  - the `splice` insertion. Its in-place array shift is the method
    `SpliceInsert`.
- `pages.dfy` (module `Pages`): the class `PageCollection`. Its four
  fields are the hook's state, and each handler is a method on them. It also
  holds the action-string dispatch.
- `drag_and_drop.dfy` (module `DragDrop`): the class `DragTracker`. Its
  three fields are the hook's state; the functions give the side selection
  and the target-index arithmetic.
- `scenarios.dfy` (module `Scenarios`): worked examples on the four
  default pages, and a client of `DragTracker` that relies only on its
  contracts.

Conventions:

- Each handler is one atomic step on the state it is called in. The
  handlers read the state of the render they were created in, and this
  matches that, e.g. `deletePage` reading the pre-deletion list.
- `Date.now()` becomes a `stamp: string` parameter. It is the decimal text
  the template literal would insert, and ids are built from it exactly as
  the source builds them.
- The pointer geometry of the drag-over handler uses `real`.
- `IdsUnique()` (no two pages share an id) and `ActiveValid()` (the active
  id names a page whenever there are pages) are ghost predicates. The
  handlers preserve them under the conditions their `ensures` state. The
  source does not enforce either.

Where the code's behaviour is easy to misread, the model follows the code:

- **`splice` start.** JavaScript `splice` counts a negative start from the
  end and clamps the result to `0 .. length`. `SpliceStart` models this.
- **Deleting the active page.** `deletePage` looks at the list length
  before the deletion (`> 1`) to decide whether to move the active page.
  It reads `remainingPages[0].id` without checking the list. When more than
  one page carries the deleted id and no other page remains, that read
  throws a TypeError. `DeletePage` returns `threw` for exactly that case.
  By then the filtered list is already set, and the active id is left as
  it was. With unique ids it never happens.
- **Move to front with duplicate ids.** `movePageToFirst` keeps the first
  page carrying the id and drops every other page carrying it. It is a
  permutation only when ids are unique.
- **Adding to an empty list.** The active id is not updated, so adding to
  an empty list leaves a page strip whose active id names no page.
- **The reorder callback.** `PageNavigation` passes `reorderPages` from
  `usePages()` to the drag hook (src/components/PageNavigation.tsx:26, 36).
  `usePages` returns no such member (src/hooks/usePages.tsx:139-156). The
  model therefore stops at the request the drop handler issues:
  `HandleDrop` returns `Option<ReorderCall>`.
  - Whether the callback returns or throws is a parameter of `HandleDrop`.
    The reset at src/hooks/useDragAndDrop.tsx:100 runs only after the
    callback returns. With the undefined `reorderPages` as wired, every
    request throws a TypeError at line 98. The drag state then stays until
    the drag-end handler (line 109) clears it.
  - `SpliceMove` (remove at `from`, insert at `to`) is a reference
    semantics only. It states what the target index is designed for. It is
    not code of the widget.
- **The reorder guard.** It compares the raw drop index with the dragged
  index, before the "after" shift and the removal adjustment. A request
  from `i` to `i` can therefore still be issued (`IdentityRequestIff`).

## Model

| member | source | states |
|---|---|---|
| Text.IsWhitespace | src/hooks/usePages.tsx:29 | the characters `trim` removes: the ECMAScript WhiteSpace code points (tab, vertical tab, form feed, space, no-break space, byte order mark, and the space separators U+1680, U+2000 to U+200A, U+202F, U+205F, U+3000) and the LineTerminator code points (line feed, carriage return, U+2028, U+2029) |
| Text.TrimStart | src/hooks/usePages.tsx:29 | the result is a suffix of the input that does not start with whitespace, and everything dropped is whitespace |
| Text.TrimEnd | src/hooks/usePages.tsx:29 | the result is a prefix of the input that does not end with whitespace, and everything dropped is whitespace |
| Text.Trim | src/hooks/usePages.tsx:29-32 | `trim()` is no longer than the input and neither starts nor ends with whitespace |
| Text.TrimCut | src/hooks/usePages.tsx:29-32 | `trim()` is the part of the input between a blank prefix, as long as the leading whitespace, and a blank suffix |
| Text.TrimEmptyIffBlank | src/hooks/usePages.tsx:29 | `tempName.trim()` is falsy (empty) exactly when the buffer is all whitespace |
| Text.TrimIdempotent | src/hooks/usePages.tsx:29-32 | trimming the already trimmed name changes nothing |
| PageList.Ids | src/hooks/usePages.tsx:4-8 | the ids of the pages, one per page, in order |
| PageList.CountId | src/hooks/usePages.tsx:102 | the number of pages carrying an id is zero exactly when no page carries it |
| PageList.IndexOf | src/hooks/usePages.tsx:79 | `findIndex` is -1 exactly when no page carries the id, otherwise the first position carrying it |
| PageList.Find | src/hooks/usePages.tsx:56 | `find` returns a page exactly when some page carries the id, and the page it returns is in the list and carries the id |
| PageList.FindIsAtIndexOf | src/hooks/usePages.tsx:72-79 | `find` returns the page at the position `findIndex` returns |
| PageList.RenameAll | src/hooks/usePages.tsx:31-33 | same length and ids; every page carrying the id takes the new name; every other page is unchanged |
| PageList.RenameAllKeepsIds | src/hooks/usePages.tsx:31-33 | renaming keeps unique ids unique and keeps exactly the same ids present |
| PageList.RenameAllTwice | src/hooks/usePages.tsx:28-38 | two rename submits of the same page in a row leave only the second name: the first leaves no trace |
| PageList.RemoveId | src/hooks/usePages.tsx:102 | the filtered list is no longer than the list, and no page in it carries the id |
| PageList.RemoveIdCount | src/hooks/usePages.tsx:102 | the filter removes exactly as many pages as carry the id |
| PageList.RemoveIdAbsent | src/hooks/usePages.tsx:102 | filtering out an id no page carries leaves the list as it is |
| PageList.RemoveIdMembers | src/hooks/usePages.tsx:102 | a page is kept exactly when it is in the list and does not carry the id |
| PageList.RemoveIdAppend | src/hooks/usePages.tsx:66 | the filter distributes over concatenation, so the relative order of kept pages stays |
| PageList.RemoveIdUnique | src/hooks/usePages.tsx:102 | with unique ids, the filter removes exactly the one page at the id's position |
| PageList.RemoveIdKeepsOthers | src/hooks/usePages.tsx:102 | after the filter, an id is present exactly when it was present and is not the deleted id |
| PageList.RemoveIdUniqueLength | src/hooks/usePages.tsx:102 | with unique ids, the list shrinks by one when the id is present and is unchanged otherwise |
| PageList.RemoveIdKeepsUnique | src/hooks/usePages.tsx:102 | the filter keeps unique ids unique |
| PageList.MoveToFirst | src/hooks/usePages.tsx:63-69 | an unknown id leaves the list as it is; a present id gives the first page carrying it (the page `find` returns) followed by the filtered list |
| PageList.MoveToFirstKeepsIds | src/hooks/usePages.tsx:63-69 | move-to-front keeps exactly the same ids present, even with duplicates |
| PageList.MoveToFirstShape | src/hooks/usePages.tsx:63-69 | with unique ids, the result is the page at the id's index followed by all other pages in their order |
| PageList.MoveToFirstPermutes | src/hooks/usePages.tsx:63-69 | with unique ids, move-to-front is a permutation and keeps ids unique |
| PageList.SpliceStart | src/hooks/usePages.tsx:51 | the position `splice` inserts at lies in `0 .. length` and is the start itself when the start is in range |
| PageList.InsertAt | src/hooks/usePages.tsx:51 | one longer; the new page at the position; earlier pages in place; later pages one place further on |
| PageList.InsertAtRemoveAt | src/hooks/usePages.tsx:50-51 | taking the inserted page out again gives back the original list |
| PageList.InsertAtMultiset | src/hooks/usePages.tsx:50-51 | insertion adds exactly the one page and loses none |
| PageList.InsertAtKeepsUnique | src/hooks/usePages.tsx:46-51 | inserting a page whose id is new keeps ids unique |
| PageList.InsertAtKeepsIds | src/hooks/usePages.tsx:50-51 | after insertion an id is present exactly when it was present or is the new page's id |
| PageList.SpliceInsert | src/hooks/usePages.tsx:50-51 | copying the array and splicing one page into it in place yields the insertion at the clamped start |
| PageList.CopyAfter | src/hooks/usePages.tsx:71-99 | an unknown id leaves the list as it is; otherwise one longer, with the copy (id + infix + stamp, name + suffix) right after the first page carrying the id, and the original list once the copy is removed |
| PageList.CopyAfterKeepsUnique | src/hooks/usePages.tsx:74-81 | a copy whose id is new keeps ids unique |
| PageList.CopyAfterKeepsIds | src/hooks/usePages.tsx:74-81 | after a copy an id is present exactly when it was present or is the copy's id |
| Pages.DefaultPages | src/hooks/usePages.tsx:12-21 | the four pages used when no list is supplied: info "Info", details "Details", other "Other", ending "Ending", in that order |
| Pages.ActionName | src/components/ui/PageDropdown.tsx:39-61 | the string each menu item sends: "set-first", "rename", "copy", "duplicate", "delete" |
| Pages.NewPageId | src/hooks/usePages.tsx:47 | the id of an added page: "page-" followed by the timestamp text |
| Pages.ParseAction | src/hooks/usePages.tsx:110-126 | a string selects an action only if it is that action's menu string |
| Pages.ParseActionName | src/components/ui/PageDropdown.tsx:39-61 | every menu item's string selects its own action |
| Pages.ParseActionIff | src/hooks/usePages.tsx:110-126 | a string selects some action exactly when it is one of the five menu strings |
| Pages.PageCollection.constructor | src/hooks/usePages.tsx:10-26 | the supplied list, or the four default pages when none is supplied; "info" active, no rename, empty buffer; the default list has unique ids and its active id present |
| Pages.PageCollection.SetActivePageId | src/hooks/usePages.tsx:24 | sets the active id and nothing else |
| Pages.PageCollection.SetTempName | src/hooks/usePages.tsx:26 | sets the rename buffer and nothing else |
| Pages.PageCollection.HandleRenameSubmit | src/hooks/usePages.tsx:28-38 | a non-blank buffer renames every page carrying the id to the trimmed buffer; a blank one changes no page; the rename ends and the buffer empties either way; the active id stays; unique ids and a valid active id are kept |
| Pages.PageCollection.HandleRenameCancel | src/hooks/usePages.tsx:40-43 | the rename ends and the buffer empties; pages and active id are unchanged |
| Pages.PageCollection.AddNewPage | src/hooks/usePages.tsx:45-53 | the list becomes the insertion of "New Page" (id "page-" + stamp) at the clamped `afterIndex + 1`; the other fields are unchanged; unique ids are kept when the stamp id is new; a valid active id is kept on a non-empty list |
| Pages.PageCollection.StartRename | src/hooks/usePages.tsx:55-61 | for a present id, the rename id becomes it and the buffer that page's name; an unknown id changes nothing; pages and active id are unchanged |
| Pages.PageCollection.MovePageToFirst | src/hooks/usePages.tsx:63-69 | the list becomes its move-to-front; the other fields are unchanged; with unique ids the new list is a permutation with unique ids; a valid active id is kept |
| Pages.PageCollection.InsertCopy | src/hooks/usePages.tsx:71-99 | the list becomes the copy-after of the page; the other fields are unchanged; unique ids are kept when the copy's id is new; a valid active id is kept |
| Pages.PageCollection.CopyPage | src/hooks/usePages.tsx:71-84 | copy-after with id "<id>-copy-<stamp>" and name "<name> Copy"; the same preservation as above |
| Pages.PageCollection.DuplicatePage | src/hooks/usePages.tsx:86-99 | copy-after with id "<id>-duplicate-<stamp>" and name "<name> Duplicate"; the same preservation as above |
| Pages.PageCollection.DeletePage | src/hooks/usePages.tsx:101-107 | every page carrying the id is removed; when the id was active and there were more than one page the first remaining page becomes active; otherwise the active id stays (dangling after the last page goes); `threw` exactly when that first remaining page does not exist; with unique ids it never throws and ids stay unique; a valid active id is kept |
| Pages.PageCollection.HandlePageAction | src/hooks/usePages.tsx:109-127 | each of the five strings has the effect of its handler; any other string changes nothing; only delete can move the active id or throw, and with unique ids it never throws; unique ids are kept when the copy or duplicate id is new; a valid active id is kept |
| DragDrop.SideOf | src/hooks/useDragAndDrop.tsx:45-47 | `Before` exactly when the pointer is strictly left of `left + width / 2`, otherwise `After` |
| DragDrop.SideOfMidpoint | src/hooks/useDragAndDrop.tsx:45-47 | a pointer exactly on the midpoint selects "after" |
| DragDrop.SideOfMonotone | src/hooks/useDragAndDrop.tsx:45-47 | moving the pointer left never turns "before" into "after" |
| DragDrop.SideOfEdges | src/hooks/useDragAndDrop.tsx:45-47 | on a box of positive width the left edge is "before" and the right edge "after" |
| DragDrop.Gap | src/hooks/useDragAndDrop.tsx:89-92 | the gap pointed at: the drop index, plus one when the side is "after" |
| DragDrop.TargetIndex | src/hooks/useDragAndDrop.tsx:89-96 | the gap, less one when the dragged index is below it |
| DragDrop.DropCall | src/hooks/useDragAndDrop.tsx:86-98 | a request is issued exactly when a drag is in progress and the raw drop index differs from the dragged index, and it is from the dragged index |
| DragDrop.TargetInRange | src/hooks/useDragAndDrop.tsx:89-96 | for in-range dragged and drop indices the target lies in `0 .. n-1`, a position of the list after removal |
| DragDrop.DropCallInRange | src/hooks/useDragAndDrop.tsx:88-98 | every request made for in-range indices has both indices in range |
| DragDrop.GuardSuppressesOnlyIdentity | src/hooks/useDragAndDrop.tsx:88-96 | a drop on the dragged index itself would have targeted the dragged index anyway |
| DragDrop.IdentityRequestIff | src/hooks/useDragAndDrop.tsx:88-96 | past the guard, the target equals the dragged index exactly for "after the previous item" and "before the next item" |
| DragDrop.IdentityRequestExample | src/hooks/useDragAndDrop.tsx:88-98 | dragged 1, dropped after 0 issues a request from 1 to 1 |
| DragDrop.SpliceMove | src/hooks/useDragAndDrop.tsx:93-98 | reference semantics for the reorder request, not widget code: same length, the moved item at the target |
| DragDrop.SpliceMovePermutes | src/hooks/useDragAndDrop.tsx:93-98 | reference semantics for the reorder request: a move is a permutation |
| DragDrop.TargetLandsInGap | src/hooks/useDragAndDrop.tsx:89-96 | the removal compensation is right: moving to the target puts the item between the two neighbours of the gap pointed at |
| DragDrop.DragTracker.constructor | src/hooks/useDragAndDrop.tsx:13-17 | the hook starts with all three fields null |
| DragDrop.DragTracker.ResetDragState | src/hooks/useDragAndDrop.tsx:19-25 | all three fields become null; this is also the drag-end handler (line 109) |
| DragDrop.DragTracker.HandleDragStart | src/hooks/useDragAndDrop.tsx:27-35 | sets only the dragged index; the hover fields are kept |
| DragDrop.DragTracker.HandleDragOver | src/hooks/useDragAndDrop.tsx:37-56 | sets the hovered index and the side from the pointer against the midpoint; the dragged index is kept |
| DragDrop.DragTracker.DropZoneHover | src/hooks/useDragAndDrop.tsx:58-81 | the drop zone's over and enter handlers set its index and side; the dragged index is kept |
| DragDrop.DragTracker.HandleDrop | src/hooks/useDragAndDrop.tsx:83-103 | the request issued is the one the pre-drop state determines; the state is reset unless the issued request's callback throws, in which case the state is left as it was and `threw` reports it |
| Scenarios.AddAfterDetails | src/hooks/usePages.tsx:45-53 | "+" after Details on the default pages puts "New Page" third |
| Scenarios.SetEndingFirst | src/hooks/usePages.tsx:63-69 | "set as first page" on Ending gives Ending, Info, Details, Other |
| Scenarios.DeleteInfo | src/hooks/usePages.tsx:101-107 | deleting Info leaves Details, Other, Ending, so an active Info falls back to "details" |
| Scenarios.BlankBufferIsIgnored | src/hooks/usePages.tsx:29 | a buffer of a space and a tab trims to nothing |
| Scenarios.UnknownActionIsIgnored | src/hooks/usePages.tsx:110-126 | a string outside the menu selects no action |
| Scenarios.DragInfoAfterOther | src/hooks/useDragAndDrop.tsx:88-98 | dragging Info onto the right half of Other requests a move from 0 to 2, which the reference move turns into Details, Other, Info, Ending |

## Left out

- Rendering: all JSX, class names and the drop-indicator expressions of `PageNavigation`, `DropZone` and `PageIcon`. They have no state.
- `getPageIcon` (src/hooks/usePages.tsx:129-137): it only chooses an icon.
- The unused `isActive` field of a page (src/hooks/usePages.tsx:7, 16). It is not read anywhere in the hooks.
- DOM and React plumbing:
  - `preventDefault`, `dataTransfer.effectAllowed` and `dropEffect`;
  - `useState` setter batching, `useCallback` memoisation and stale closures.
  Each handler is one atomic step on the current state.
- `Date.now()`: it is the `stamp` parameter. Nothing guarantees a fresh id, so every "ids stay unique" clause assumes the new id is not present.
- `getBoundingClientRect` and floating-point rounding: the midpoint test uses exact `real` arithmetic.
- The reorder implementation: none exists in the hooks (see above). `HandleDrop` returns the request, and the callback's outcome is its `callbackThrows` parameter.
- Pages.PageCollection.AddNewPage: keeps a valid active id only on a non-empty list, because the source does not set an active id when it adds the first page.
- Pages.PageCollection.MovePageToFirst: states a permutation only under unique ids, because with duplicate ids the source drops the extra pages.
- Pages.PageCollection.DeletePage: when `threw` holds, the model keeps the filtered list it had already set. Whether the framework commits that update after the TypeError is not modelled.
