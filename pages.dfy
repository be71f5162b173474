/**
 * The page hook (`usePages`): the state of the page strip and its handlers.
 * Each handler is one atomic step on the state it is called in.
 */
module Pages {
  import opened Optional
  import opened Text
  import opened PageList

  /** The four pages shown when no initial list is supplied. */
  function DefaultPages(): seq<Page>
  {
    [Page("info", "Info"), Page("details", "Details"), Page("other", "Other"), Page("ending", "Ending")]
  }

  /** The actions the page menu emits. */
  datatype Action = SetFirst | Rename | Copy | Duplicate | Delete

  /** The string the page menu sends for each action. */
  function ActionName(a: Action): string
  {
    match a
    case SetFirst => "set-first"
    case Rename => "rename"
    case Copy => "copy"
    case Duplicate => "duplicate"
    case Delete => "delete"
  }

  /**
   * The `switch` of `handlePageAction`: the action a string selects, or
   * none for any other string.
   */
  function ParseAction(s: string): (r: Option<Action>)
    ensures r.Some? ==> ActionName(r.value) == s
  {
    if s == "set-first" then Some(SetFirst)
    else if s == "rename" then Some(Rename)
    else if s == "copy" then Some(Copy)
    else if s == "duplicate" then Some(Duplicate)
    else if s == "delete" then Some(Delete)
    else None
  }

  /** Every action's string selects that action, so the dispatch covers all five menu items. */
  lemma ParseActionName(a: Action)
    ensures ParseAction(ActionName(a)) == Some(a)
  {
  }

  /** The strings that select an action are exactly the five menu strings. */
  lemma ParseActionIff(s: string)
    ensures ParseAction(s).Some? <==> exists a :: ActionName(a) == s
  {
    if exists a :: ActionName(a) == s {
      var a :| ActionName(a) == s;
      ParseActionName(a);
    }
  }

  /** The id `addNewPage` gives a new page. */
  function NewPageId(stamp: string): string
  {
    "page-" + stamp
  }

  class PageCollection {
    var pages: seq<Page>
    var activePageId: string
    var renamingPageId: Option<string>
    var tempName: string

    /** No two pages share an id. */
    ghost predicate IdsUnique()
      reads this
    {
      UniqueIds(pages)
    }

    /** The active id names a page whenever there are pages. */
    ghost predicate ActiveValid()
      reads this
    {
      pages != [] ==> HasId(pages, activePageId)
    }

    /**
     * `usePages(initialPages)`: the supplied list, or the default four pages
     * when none is supplied (an empty list is kept); "info" active, no rename.
     */
    constructor (initialPages: Option<seq<Page>>)
      ensures pages == (if initialPages.Some? then initialPages.value else DefaultPages())
      ensures activePageId == "info" && renamingPageId == None && tempName == ""
      ensures initialPages.None? ==> IdsUnique() && ActiveValid()
    {
      pages := if initialPages.Some? then initialPages.value else DefaultPages();
      activePageId := "info";
      renamingPageId := None;
      tempName := "";
      assert Ids(DefaultPages())[0] == "info";
    }

    /** `setActivePageId(id)`: selects a page; the id is not checked. */
    method SetActivePageId(id: string)
      modifies this
      ensures activePageId == id
      ensures pages == old(pages) && renamingPageId == old(renamingPageId) && tempName == old(tempName)
    {
      activePageId := id;
    }

    /** `setTempName(text)`: edits the rename buffer and nothing else. */
    method SetTempName(text: string)
      modifies this
      ensures tempName == text
      ensures pages == old(pages) && activePageId == old(activePageId) && renamingPageId == old(renamingPageId)
    {
      tempName := text;
    }

    /**
     * `handleRenameSubmit(id)`: a non-blank buffer, trimmed, becomes the name
     * of every page carrying `id`; a blank one changes no page. The rename
     * ends either way.
     */
    method HandleRenameSubmit(id: string)
      modifies this
      ensures Trim(old(tempName)) != [] ==> pages == RenameAll(old(pages), id, Trim(old(tempName)))
      ensures Trim(old(tempName)) == [] ==> pages == old(pages)
      ensures renamingPageId == None && tempName == ""
      ensures activePageId == old(activePageId)
      ensures old(IdsUnique()) ==> IdsUnique()
      ensures old(ActiveValid()) ==> ActiveValid()
    {
      var trimmed := Trim(tempName);
      if trimmed != [] {
        var renamed := RenameAll(pages, id, trimmed);
        RenameAllKeepsIds(pages, id, trimmed, activePageId);
        assert renamed != [] <==> pages != [];
        pages := renamed;
      }
      renamingPageId := None;
      tempName := "";
    }

    /** `handleRenameCancel()`: ends the rename and drops the buffer; no page changes. */
    method HandleRenameCancel()
      modifies this
      ensures renamingPageId == None && tempName == ""
      ensures pages == old(pages) && activePageId == old(activePageId)
    {
      renamingPageId := None;
      tempName := "";
    }

    /**
     * `addNewPage(afterIndex)`: a page "New Page" with id "page-" + stamp is
     * spliced in at `afterIndex + 1` (clamped as `splice` does); nothing else changes.
     */
    method AddNewPage(afterIndex: int, stamp: string)
      modifies this
      ensures pages == InsertAt(old(pages), SpliceStart(|old(pages)|, afterIndex + 1), Page(NewPageId(stamp), "New Page"))
      ensures activePageId == old(activePageId) && renamingPageId == old(renamingPageId) && tempName == old(tempName)
      ensures old(IdsUnique()) && !HasId(old(pages), NewPageId(stamp)) ==> IdsUnique()
      ensures old(pages) != [] && old(ActiveValid()) ==> ActiveValid()
    {
      var newPage := Page(NewPageId(stamp), "New Page");
      ghost var before := pages;
      pages := SpliceInsert(pages, afterIndex + 1, newPage);
      ghost var k := SpliceStart(|before|, afterIndex + 1);
      if UniqueIds(before) && !HasId(before, newPage.id) {
        InsertAtKeepsUnique(before, k, newPage);
      }
      InsertAtKeepsIds(before, k, newPage, activePageId);
    }

    /**
     * `startRename(id)`: for a known id, that page enters rename mode with its
     * current name in the buffer; an unknown id changes nothing.
     */
    method StartRename(id: string)
      modifies this
      ensures HasId(old(pages), id) ==>
        renamingPageId == Some(id) && tempName == old(pages)[IndexOf(old(pages), id)].name
      ensures !HasId(old(pages), id) ==>
        renamingPageId == old(renamingPageId) && tempName == old(tempName)
      ensures pages == old(pages) && activePageId == old(activePageId)
    {
      FindIsAtIndexOf(pages, id);
      var found := Find(pages, id);
      if found.Some? {
        renamingPageId := Some(id);
        tempName := found.value.name;
      }
    }

    /** `movePageToFirst(id)`: the list becomes its move-to-front by `id`; nothing else changes. */
    method MovePageToFirst(id: string)
      modifies this
      ensures pages == MoveToFirst(old(pages), id)
      ensures activePageId == old(activePageId) && renamingPageId == old(renamingPageId) && tempName == old(tempName)
      ensures old(IdsUnique()) ==> IdsUnique() && multiset(pages) == multiset(old(pages))
      ensures old(ActiveValid()) ==> ActiveValid()
    {
      ghost var before := pages;
      pages := MoveToFirst(pages, id);
      if UniqueIds(before) && HasId(before, id) {
        MoveToFirstPermutes(before, id);
      }
      MoveToFirstKeepsIds(before, id, activePageId);
    }

    /**
     * The common step of `copyPage` and `duplicatePage`: a page with id
     * `id + idInfix + stamp` and name `name + suffix` is spliced in right
     * after the first page carrying `id`; an unknown id changes nothing.
     */
    method InsertCopy(id: string, idInfix: string, suffix: string, stamp: string)
      modifies this
      ensures pages == CopyAfter(old(pages), id, idInfix, suffix, stamp)
      ensures activePageId == old(activePageId) && renamingPageId == old(renamingPageId) && tempName == old(tempName)
      ensures old(IdsUnique()) && !HasId(old(pages), id + idInfix + stamp) ==> IdsUnique()
      ensures old(ActiveValid()) ==> ActiveValid()
    {
      ghost var before := pages;
      FindIsAtIndexOf(pages, id);
      var found := Find(pages, id);
      if found.Some? {
        var newPage := Page(id + idInfix + stamp, found.value.name + suffix);
        var pageIndex := IndexOf(pages, id);
        pages := SpliceInsert(pages, pageIndex + 1, newPage);
      }
      CopyAfterKeepsIds(before, id, idInfix, suffix, stamp, activePageId);
      if UniqueIds(before) && !HasId(before, id + idInfix + stamp) {
        CopyAfterKeepsUnique(before, id, idInfix, suffix, stamp);
      }
    }

    /** `copyPage(id)`: a copy named "<name> Copy" with id "<id>-copy-<stamp>" right after the page. */
    method CopyPage(id: string, stamp: string)
      modifies this
      ensures pages == CopyAfter(old(pages), id, "-copy-", " Copy", stamp)
      ensures activePageId == old(activePageId) && renamingPageId == old(renamingPageId) && tempName == old(tempName)
      ensures old(IdsUnique()) && !HasId(old(pages), id + "-copy-" + stamp) ==> IdsUnique()
      ensures old(ActiveValid()) ==> ActiveValid()
    {
      InsertCopy(id, "-copy-", " Copy", stamp);
    }

    /** `duplicatePage(id)`: a copy named "<name> Duplicate" with id "<id>-duplicate-<stamp>" right after the page. */
    method DuplicatePage(id: string, stamp: string)
      modifies this
      ensures pages == CopyAfter(old(pages), id, "-duplicate-", " Duplicate", stamp)
      ensures activePageId == old(activePageId) && renamingPageId == old(renamingPageId) && tempName == old(tempName)
      ensures old(IdsUnique()) && !HasId(old(pages), id + "-duplicate-" + stamp) ==> IdsUnique()
      ensures old(ActiveValid()) ==> ActiveValid()
    {
      InsertCopy(id, "-duplicate-", " Duplicate", stamp);
    }

    /**
     * `deletePage(id)`: every page carrying `id` is filtered out. If `id` was
     * active and there were more than one page, the first remaining page
     * becomes active. `threw` reports the one path on which the source reads
     * the first page of an empty remainder (a TypeError): more than one page,
     * all carrying `id`; the filtered list is already set then and the active
     * id is left as it was.
     */
    method DeletePage(id: string) returns (threw: bool)
      modifies this
      ensures pages == RemoveId(old(pages), id)
      ensures threw <==> old(activePageId) == id && |old(pages)| > 1 && pages == []
      ensures activePageId ==
        if old(activePageId) == id && |old(pages)| > 1 && !threw then pages[0].id else old(activePageId)
      ensures renamingPageId == old(renamingPageId) && tempName == old(tempName)
      ensures old(IdsUnique()) ==> IdsUnique() && !threw
      ensures old(ActiveValid()) ==> ActiveValid()
    {
      var before := pages;
      pages := RemoveId(pages, id);
      threw := false;
      if activePageId == id && |before| > 1 {
        var remainingPages := RemoveId(before, id);
        if remainingPages == [] {
          threw := true;
        } else {
          activePageId := remainingPages[0].id;
          assert Ids(pages)[0] == activePageId;
        }
      }
      if UniqueIds(before) {
        RemoveIdKeepsUnique(before, id);
        RemoveIdUniqueLength(before, id);
      }
      RemoveIdKeepsOthers(before, id, activePageId);
    }

    /**
     * `handlePageAction(id, action)`: the five menu strings run move-to-front,
     * start-rename, copy, duplicate and delete on `id`; any other string
     * changes nothing. `threw` is the delete step's.
     */
    method HandlePageAction(id: string, action: string, stamp: string) returns (threw: bool)
      modifies this
      ensures ParseAction(action) == None ==>
        pages == old(pages) && activePageId == old(activePageId) &&
        renamingPageId == old(renamingPageId) && tempName == old(tempName)
      ensures ParseAction(action) == Some(SetFirst) ==> pages == MoveToFirst(old(pages), id)
      ensures ParseAction(action) == Some(Rename) ==>
        pages == old(pages) &&
        (HasId(old(pages), id) ==> renamingPageId == Some(id) && tempName == old(pages)[IndexOf(old(pages), id)].name)
      ensures ParseAction(action) != Some(Rename) || !HasId(old(pages), id) ==>
        renamingPageId == old(renamingPageId) && tempName == old(tempName)
      ensures ParseAction(action) == Some(Copy) ==> pages == CopyAfter(old(pages), id, "-copy-", " Copy", stamp)
      ensures ParseAction(action) == Some(Duplicate) ==> pages == CopyAfter(old(pages), id, "-duplicate-", " Duplicate", stamp)
      ensures ParseAction(action) == Some(Delete) ==> pages == RemoveId(old(pages), id)
      ensures ParseAction(action) != Some(Delete) ==> activePageId == old(activePageId) && !threw
      ensures ParseAction(action) == Some(Delete) ==>
        (threw <==> old(activePageId) == id && |old(pages)| > 1 && pages == []) &&
        activePageId == if old(activePageId) == id && |old(pages)| > 1 && !threw then pages[0].id else old(activePageId)
      ensures old(IdsUnique()) ==> !threw
      ensures old(IdsUnique()) &&
        (ParseAction(action) == Some(Copy) ==> !HasId(old(pages), id + "-copy-" + stamp)) &&
        (ParseAction(action) == Some(Duplicate) ==> !HasId(old(pages), id + "-duplicate-" + stamp))
        ==> IdsUnique()
      ensures old(ActiveValid()) ==> ActiveValid()
    {
      threw := false;
      match ParseAction(action)
      case None =>
      case Some(SetFirst) => MovePageToFirst(id);
      case Some(Rename) => StartRename(id);
      case Some(Copy) => CopyPage(id, stamp);
      case Some(Duplicate) => DuplicatePage(id, stamp);
      case Some(Delete) => threw := DeletePage(id);
    }
  }
}
