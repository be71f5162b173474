/**
 * The page list of the page-tab widget and the array operations the page
 * hook performs on it: `find`, `findIndex`, `map` (rename), `filter`
 * (delete), move-to-front and the `splice` insertion used by add, copy and
 * duplicate.
 */
module PageList {
  import opened Optional

  /** One tab: a stable id and a user-visible name. Position in the list is its order. */
  datatype Page = Page(id: string, name: string)

  /** The ids of the pages, in list order. */
  function Ids(pages: seq<Page>): (r: seq<string>)
    ensures |r| == |pages|
    ensures forall i :: 0 <= i < |pages| ==> r[i] == pages[i].id
  {
    if pages == [] then [] else [pages[0].id] + Ids(pages[1..])
  }

  /** Some page of the list carries `id`. */
  predicate HasId(pages: seq<Page>, id: string)
  {
    id in Ids(pages)
  }

  /** No two pages share an id. */
  ghost predicate UniqueIds(pages: seq<Page>)
  {
    forall i, j :: 0 <= i < j < |pages| ==> pages[i].id != pages[j].id
  }

  /** The number of pages that carry `id`. */
  function CountId(pages: seq<Page>, id: string): (n: nat)
    ensures n <= |pages|
    ensures n == 0 <==> !HasId(pages, id)
  {
    if pages == [] then 0
    else (if pages[0].id == id then 1 else 0) + CountId(pages[1..], id)
  }

  /** `pages.findIndex(p => p.id === id)`: the first position carrying `id`, or -1. */
  function IndexOf(pages: seq<Page>, id: string): (r: int)
    ensures -1 <= r < |pages|
    ensures r == -1 <==> !HasId(pages, id)
    ensures 0 <= r ==> pages[r].id == id && forall j :: 0 <= j < r ==> pages[j].id != id
  {
    if pages == [] then -1
    else if pages[0].id == id then 0
    else
      var k := IndexOf(pages[1..], id);
      if k < 0 then -1 else k + 1
  }

  /** `pages.find(p => p.id === id)`: the first page carrying `id`, if any. */
  function Find(pages: seq<Page>, id: string): (r: Option<Page>)
    ensures r.Some? <==> HasId(pages, id)
    ensures r.Some? ==> r.value.id == id && r.value in pages
  {
    if pages == [] then None
    else if pages[0].id == id then Some(pages[0])
    else Find(pages[1..], id)
  }

  /** `find` and `findIndex` agree: the page found is the one at the index found. */
  lemma {:induction false} FindIsAtIndexOf(pages: seq<Page>, id: string)
    ensures Find(pages, id) == if IndexOf(pages, id) < 0 then None else Some(pages[IndexOf(pages, id)])
  {
    if pages != [] && pages[0].id != id {
      FindIsAtIndexOf(pages[1..], id);
    }
  }

  /**
   * `pages.map(p => p.id === id ? {...p, name: newName} : p)`: every page
   * carrying `id` takes the new name; ids, order and all other pages stay.
   */
  function RenameAll(pages: seq<Page>, id: string, newName: string): (r: seq<Page>)
    ensures |r| == |pages|
    ensures forall i :: 0 <= i < |pages| ==> r[i].id == pages[i].id
    ensures forall i :: 0 <= i < |pages| && pages[i].id == id ==> r[i].name == newName
    ensures forall i :: 0 <= i < |pages| && pages[i].id != id ==> r[i] == pages[i]
  {
    seq(|pages|, i requires 0 <= i < |pages| =>
      if pages[i].id == id then pages[i].(name := newName) else pages[i])
  }

  /** Renaming keeps the ids, so it keeps them unique and keeps every id present. */
  lemma {:induction false} RenameAllKeepsIds(pages: seq<Page>, id: string, newName: string, other: string)
    ensures UniqueIds(pages) ==> UniqueIds(RenameAll(pages, id, newName))
    ensures HasId(RenameAll(pages, id, newName), other) <==> HasId(pages, other)
  {
    var r := RenameAll(pages, id, newName);
    if HasId(pages, other) {
      var i :| 0 <= i < |pages| && pages[i].id == other;
      assert r[i].id == other;
    }
  }

  /** Submitting a rename of the same id twice in a row leaves only the second name: the first leaves no trace. */
  lemma RenameAllTwice(pages: seq<Page>, id: string, a: string, b: string)
    ensures RenameAll(RenameAll(pages, id, a), id, b) == RenameAll(pages, id, b)
  {
  }

  /** `pages.filter(p => p.id !== id)`: every page carrying `id` is removed, the rest keep their order. */
  function RemoveId(pages: seq<Page>, id: string): (r: seq<Page>)
    ensures |r| <= |pages|
    ensures forall i :: 0 <= i < |r| ==> r[i].id != id
  {
    if pages == [] then []
    else if pages[0].id == id then RemoveId(pages[1..], id)
    else [pages[0]] + RemoveId(pages[1..], id)
  }

  /** The filter removes exactly as many pages as carry `id`. */
  lemma {:induction false} RemoveIdCount(pages: seq<Page>, id: string)
    ensures |RemoveId(pages, id)| == |pages| - CountId(pages, id)
  {
    if pages != [] {
      RemoveIdCount(pages[1..], id);
    }
  }

  /** Filtering out an id no page carries changes nothing. */
  lemma {:induction false} RemoveIdAbsent(pages: seq<Page>, id: string)
    requires !HasId(pages, id)
    ensures RemoveId(pages, id) == pages
  {
    if pages != [] {
      assert Ids(pages) == [pages[0].id] + Ids(pages[1..]);
      RemoveIdAbsent(pages[1..], id);
      assert pages == [pages[0]] + pages[1..];
    }
  }

  /** The pages kept by the filter are exactly the pages of the list that do not carry `id`. */
  lemma {:induction false} RemoveIdMembers(pages: seq<Page>, id: string, p: Page)
    ensures p in RemoveId(pages, id) <==> p in pages && p.id != id
  {
    if pages != [] {
      RemoveIdMembers(pages[1..], id, p);
      assert pages == [pages[0]] + pages[1..];
    }
  }

  /** `filter` distributes over concatenation. */
  lemma {:induction false} RemoveIdAppend(a: seq<Page>, b: seq<Page>, id: string)
    ensures RemoveId(a + b, id) == RemoveId(a, id) + RemoveId(b, id)
  {
    if a == [] {
      assert a + b == b;
    } else {
      assert (a + b)[1..] == a[1..] + b;
      assert (a + b)[0] == a[0];
      RemoveIdAppend(a[1..], b, id);
    }
  }

  /** The tail of a list with unique ids has unique ids, none of them the head's. */
  lemma {:induction false} UniqueIdsTail(pages: seq<Page>)
    requires UniqueIds(pages) && pages != []
    ensures UniqueIds(pages[1..])
    ensures !HasId(pages[1..], pages[0].id)
  {
    var t := pages[1..];
    forall i, j | 0 <= i < j < |t| ensures t[i].id != t[j].id {
      assert t[i] == pages[i + 1] && t[j] == pages[j + 1];
    }
    forall j | 0 <= j < |t| ensures Ids(t)[j] != pages[0].id {
      assert t[j] == pages[j + 1];
    }
  }

  /** With unique ids, the filter removes exactly the one page at `k`. */
  lemma {:induction false} RemoveIdUnique(pages: seq<Page>, id: string, k: int)
    requires UniqueIds(pages)
    requires 0 <= k < |pages| && pages[k].id == id
    ensures RemoveId(pages, id) == pages[..k] + pages[k + 1..]
  {
    UniqueIdsTail(pages);
    if k == 0 {
      RemoveIdAbsent(pages[1..], id);
    } else {
      assert pages[0].id != id;
      RemoveIdUnique(pages[1..], id, k - 1);
      assert pages[1..][..k - 1] == pages[1..k];
      assert pages[1..][k..] == pages[k + 1..];
      assert [pages[0]] + pages[1..k] == pages[..k];
    }
  }

  /** After the filter exactly the ids other than `id` that the list carried are present. */
  lemma {:induction false} RemoveIdKeepsOthers(pages: seq<Page>, id: string, x: string)
    ensures HasId(RemoveId(pages, id), x) <==> HasId(pages, x) && x != id
  {
    var r := RemoveId(pages, id);
    if HasId(pages, x) && x != id {
      var m := IndexOf(pages, x);
      RemoveIdMembers(pages, id, pages[m]);
      var j :| 0 <= j < |r| && r[j] == pages[m];
      assert Ids(r)[j] == x;
    }
    if HasId(r, x) {
      var j := IndexOf(r, x);
      RemoveIdMembers(pages, id, r[j]);
      var m :| 0 <= m < |pages| && pages[m] == r[j];
      assert Ids(pages)[m] == x;
    }
  }

  /** With unique ids, deleting an id shortens the list by one if the id is present and by none otherwise. */
  lemma {:induction false} RemoveIdUniqueLength(pages: seq<Page>, id: string)
    requires UniqueIds(pages)
    ensures |RemoveId(pages, id)| == if HasId(pages, id) then |pages| - 1 else |pages|
  {
    if HasId(pages, id) {
      RemoveIdUnique(pages, id, IndexOf(pages, id));
    } else {
      RemoveIdAbsent(pages, id);
    }
  }

  /** Removing pages keeps the remaining ids unique. */
  lemma {:induction false} RemoveIdKeepsUnique(pages: seq<Page>, id: string)
    requires UniqueIds(pages)
    ensures UniqueIds(RemoveId(pages, id))
  {
    if pages != [] {
      UniqueIdsTail(pages);
      RemoveIdKeepsUnique(pages[1..], id);
      var rest := RemoveId(pages[1..], id);
      if pages[0].id != id {
        var r := [pages[0]] + rest;
        forall i, j | 0 <= i < j < |r| ensures r[i].id != r[j].id {
          if i == 0 {
            RemoveIdMembers(pages[1..], id, r[j]);
            var m :| 0 <= m < |pages[1..]| && pages[1..][m] == r[j];
            assert Ids(pages[1..])[m] == r[j].id;
          } else {
            assert r[i] == rest[i - 1] && r[j] == rest[j - 1];
          }
        }
      }
    }
  }

  /**
   * Move-to-front: the first page carrying `id`, followed by the list with
   * every page carrying `id` filtered out; an unknown id leaves the list as is.
   */
  function MoveToFirst(pages: seq<Page>, id: string): (r: seq<Page>)
    ensures !HasId(pages, id) ==> r == pages
    ensures HasId(pages, id) ==> |r| >= 1 && r[0] == pages[IndexOf(pages, id)] && r[1..] == RemoveId(pages, id)
  {
    FindIsAtIndexOf(pages, id);
    match Find(pages, id)
    case None => pages
    case Some(p) => [p] + RemoveId(pages, id)
  }

  /** Move-to-front keeps every id present, even when several pages carry `id`. */
  lemma {:induction false} MoveToFirstKeepsIds(pages: seq<Page>, id: string, x: string)
    ensures HasId(MoveToFirst(pages, id), x) <==> HasId(pages, x)
  {
    if HasId(pages, id) {
      var r := MoveToFirst(pages, id);
      RemoveIdKeepsOthers(pages, id, x);
      assert r == [r[0]] + r[1..];
      assert Ids(r) == [id] + Ids(r[1..]);
    }
  }

  /**
   * With unique ids, move-to-front of a present id is the page at its index
   * followed by all other pages in their order.
   */
  lemma {:induction false} MoveToFirstShape(pages: seq<Page>, id: string)
    requires UniqueIds(pages) && HasId(pages, id)
    ensures var k := IndexOf(pages, id);
      MoveToFirst(pages, id) == [pages[k]] + pages[..k] + pages[k + 1..]
  {
    var k := IndexOf(pages, id);
    FindIsAtIndexOf(pages, id);
    RemoveIdUnique(pages, id, k);
  }

  /** Taking one item to the front loses and duplicates nothing. */
  lemma {:induction false} ToFrontPermutes<T>(s: seq<T>, k: nat)
    requires k < |s|
    ensures multiset([s[k]] + s[..k] + s[k + 1..]) == multiset(s)
  {
    calc {
      multiset(s);
      { assert s == s[..k] + [s[k]] + s[k + 1..]; }
      multiset(s[..k]) + multiset{s[k]} + multiset(s[k + 1..]);
      multiset([s[k]] + s[..k] + s[k + 1..]);
    }
  }

  /** Putting a page whose id the rest does not carry in front of a list with unique ids keeps them unique. */
  lemma {:induction false} ConsKeepsUnique(q: Page, rest: seq<Page>)
    requires UniqueIds(rest) && !HasId(rest, q.id)
    ensures UniqueIds([q] + rest)
  {
    var r := [q] + rest;
    forall i, j | 0 <= i < j < |r| ensures r[i].id != r[j].id {
      assert r[j] == rest[j - 1];
      if i == 0 {
        assert Ids(rest)[j - 1] == r[j].id;
      } else {
        assert r[i] == rest[i - 1];
      }
    }
  }

  /**
   * With unique ids, move-to-front of a present id is a permutation of the
   * list and keeps the ids unique.
   */
  lemma {:induction false} MoveToFirstPermutes(pages: seq<Page>, id: string)
    requires UniqueIds(pages) && HasId(pages, id)
    ensures multiset(MoveToFirst(pages, id)) == multiset(pages)
    ensures UniqueIds(MoveToFirst(pages, id))
  {
    MoveToFirstShape(pages, id);
    ToFrontPermutes(pages, IndexOf(pages, id));
    var r := MoveToFirst(pages, id);
    var rest := RemoveId(pages, id);
    RemoveIdKeepsUnique(pages, id);
    RemoveIdKeepsOthers(pages, id, id);
    assert r == [r[0]] + rest;
    ConsKeepsUnique(r[0], rest);
  }

  /**
   * The start position `splice` actually uses for a list of length `len`:
   * a start within the list is kept, a negative one counts from the end, and
   * the result is clamped to `0 .. len`.
   */
  function SpliceStart(len: nat, start: int): (k: nat)
    ensures k <= len
    ensures 0 <= start <= len ==> k == start
  {
    if start < 0 then (if len + start < 0 then 0 else len + start)
    else if start > len then len
    else start
  }

  /** The list with position `k` removed. */
  function RemoveAt(s: seq<Page>, k: nat): seq<Page>
    requires k < |s|
  {
    s[..k] + s[k + 1..]
  }

  /**
   * `p` inserted before position `k`: one longer, `p` at `k`, the items
   * before `k` where they were and the items from `k` on one place later.
   */
  function InsertAt(s: seq<Page>, k: nat, p: Page): (r: seq<Page>)
    requires k <= |s|
    ensures |r| == |s| + 1 && r[k] == p
    ensures forall m :: 0 <= m < k ==> r[m] == s[m]
    ensures forall m :: k < m < |r| ==> r[m] == s[m - 1]
  {
    s[..k] + [p] + s[k..]
  }

  /** Removing the inserted position again gives back the original list. */
  lemma {:induction false} InsertAtRemoveAt(s: seq<Page>, k: nat, p: Page)
    requires k <= |s|
    ensures RemoveAt(InsertAt(s, k, p), k) == s
  {
    var r := InsertAt(s, k, p);
    assert r[..k] == s[..k] && r[k + 1..] == s[k..];
    assert s == s[..k] + s[k..];
  }

  /** Insertion adds exactly the one page. */
  lemma {:induction false} InsertAtMultiset(s: seq<Page>, k: nat, p: Page)
    requires k <= |s|
    ensures multiset(InsertAt(s, k, p)) == multiset(s) + multiset{p}
  {
    assert InsertAt(s, k, p) == s[..k] + [p] + s[k..];
    assert s == s[..k] + s[k..];
  }

  /** Inserting a page whose id is new keeps the ids unique. */
  lemma {:induction false} InsertAtKeepsUnique(s: seq<Page>, k: nat, p: Page)
    requires k <= |s|
    requires UniqueIds(s) && !HasId(s, p.id)
    ensures UniqueIds(InsertAt(s, k, p))
  {
    var r := InsertAt(s, k, p);
    var ids := Ids(s);
    forall i, j | 0 <= i < j < |r| ensures r[i].id != r[j].id {
      if i == k {
        assert r[j] == s[j - 1] && ids[j - 1] == r[j].id;
      } else if j == k {
        assert r[i] == s[i] && ids[i] == r[i].id;
      } else {
        var i' := if i < k then i else i - 1;
        var j' := if j < k then j else j - 1;
        assert r[i] == s[i'] && r[j] == s[j'] && i' < j';
      }
    }
  }

  /** After an insertion exactly the ids of the list and the inserted page's id are present. */
  lemma {:induction false} InsertAtKeepsIds(s: seq<Page>, k: nat, p: Page, x: string)
    requires k <= |s|
    ensures HasId(InsertAt(s, k, p), x) <==> HasId(s, x) || x == p.id
  {
    var r := InsertAt(s, k, p);
    var idsR, idsS := Ids(r), Ids(s);
    if HasId(s, x) {
      var m :| 0 <= m < |idsS| && idsS[m] == x;
      if m < k {
        assert idsR[m] == x;
      } else {
        assert idsR[m + 1] == x;
      }
    }
    if x == p.id {
      assert idsR[k] == x;
    }
    if HasId(r, x) && x != p.id {
      var j :| 0 <= j < |idsR| && idsR[j] == x;
      if j < k {
        assert idsS[j] == x;
      } else {
        assert idsS[j - 1] == x;
      }
    }
  }

  /**
   * `const a = [...s]; a.splice(start, 0, p)`: the list is copied into an
   * array one slot longer, the tail from the clamped start is shifted right
   * in place, and `p` is written into the gap.
   */
  method SpliceInsert(s: seq<Page>, start: int, p: Page) returns (r: seq<Page>)
    ensures r == InsertAt(s, SpliceStart(|s|, start), p)
  {
    var n := |s|;
    var k := SpliceStart(n, start);
    var a := new Page[n + 1];
    var i := 0;
    while i < n
      invariant 0 <= i <= n
      invariant forall m :: 0 <= m < i ==> a[m] == s[m]
    {
      a[i] := s[i];
      i := i + 1;
    }
    var j := n;
    while j > k
      invariant k <= j <= n
      invariant forall m :: 0 <= m < j ==> a[m] == s[m]
      invariant forall m :: j < m <= n ==> a[m] == s[m - 1]
    {
      a[j] := a[j - 1];
      j := j - 1;
    }
    a[k] := p;
    r := a[..];
    ghost var want := InsertAt(s, k, p);
    forall m | 0 <= m < |r| ensures r[m] == want[m] {
    }
  }

  /**
   * Copy/duplicate: a new page with id `id + idInfix + stamp` and name
   * `name + suffix`, inserted right after the first page carrying `id`;
   * an unknown id leaves the list as is.
   */
  function CopyAfter(pages: seq<Page>, id: string, idInfix: string, suffix: string, stamp: string): (r: seq<Page>)
    ensures !HasId(pages, id) ==> r == pages
    ensures HasId(pages, id) ==>
      var k := IndexOf(pages, id);
      |r| == |pages| + 1 &&
      r[k + 1] == Page(id + idInfix + stamp, pages[k].name + suffix) &&
      RemoveAt(r, k + 1) == pages
  {
    FindIsAtIndexOf(pages, id);
    match Find(pages, id)
    case None => pages
    case Some(p) =>
      var k := IndexOf(pages, id);
      var copy := Page(id + idInfix + stamp, p.name + suffix);
      InsertAtRemoveAt(pages, k + 1, copy);
      InsertAt(pages, SpliceStart(|pages|, k + 1), copy)
  }

  /** A copy whose id is new keeps the ids unique. */
  lemma {:induction false} CopyAfterKeepsUnique(pages: seq<Page>, id: string, idInfix: string, suffix: string, stamp: string)
    requires UniqueIds(pages) && !HasId(pages, id + idInfix + stamp)
    ensures UniqueIds(CopyAfter(pages, id, idInfix, suffix, stamp))
  {
    if HasId(pages, id) {
      var k := IndexOf(pages, id);
      InsertAtKeepsUnique(pages, k + 1, CopyAfter(pages, id, idInfix, suffix, stamp)[k + 1]);
    }
  }

  /** A copy adds its own id and keeps every id present. */
  lemma {:induction false} CopyAfterKeepsIds(pages: seq<Page>, id: string, idInfix: string, suffix: string, stamp: string, x: string)
    ensures HasId(CopyAfter(pages, id, idInfix, suffix, stamp), x) <==>
      HasId(pages, x) || (HasId(pages, id) && x == id + idInfix + stamp)
  {
    if HasId(pages, id) {
      var k := IndexOf(pages, id);
      FindIsAtIndexOf(pages, id);
      InsertAtKeepsIds(pages, k + 1, Page(id + idInfix + stamp, pages[k].name + suffix), x);
    }
  }
}
