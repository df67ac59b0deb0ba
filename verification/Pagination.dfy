/** Keyset pagination of the objects of a workspace: the query, the page cut with its look-ahead row, and the walk of a
    client that follows the cursors while objects are added. Cursors are object ids. */
module Pagination {
  import opened Domain
  import opened Collections

  datatype Object = Object(created: int, id: nat)

  /** Row comparison: newer first, then larger id. */
  predicate Precedes(a: Object, b: Object) {
    a.created > b.created || (a.created == b.created && a.id > b.id)
  }

  /** A workspace's objects in the order of the query; ids are unique. */
  ghost predicate Ordered(table: seq<Object>) {
    && (forall i, j | 0 <= i < j < |table| :: Precedes(table[i], table[j]))
    && (forall i, j | 0 <= i < j < |table| :: table[i].id != table[j].id)
  }

  function Find(table: seq<Object>, id: nat): Option<Object> {
    if table == [] then None else if table[0].id == id then Some(table[0]) else Find(table[1..], id)
  }

  function After(table: seq<Object>, c: Object): seq<Object> {
    if table == [] then []
    else
      (if table[0].created < c.created || (table[0].created == c.created && table[0].id < c.id) then [table[0]] else [])
      + After(table[1..], c)
  }

  /** The query, with one row more than the limit; a cursor that names no object is ignored. */
  function ListObjects(table: seq<Object>, cursor: Option<nat>, limit: nat): seq<Object> {
    var at := if cursor.Some? then Find(table, cursor.value) else None;
    Take(if at.Some? then After(table, at.value) else table, limit + 1)
  }

  datatype Page = Page(items: seq<Object>, next: Option<nat>)

  const MAX_LIMIT: nat := 100

  function Cap(requested: nat): (limit: nat)
    ensures limit <= 100 && (limit == requested || (requested > 100 && limit == 100))
  {
    if requested <= MAX_LIMIT then requested else MAX_LIMIT
  }

  /** The route: the request's limit is capped; the extra row only says that there is more. */
  function GetPage(table: seq<Object>, cursor: Option<nat>, requested: nat): Page {
    var limit := Cap(requested);
    var objects := ListObjects(table, cursor, limit);
    var items := Take(objects, limit);
    Page(items, if |objects| > limit && items != [] then Some(items[|items| - 1].id) else None)
  }

  /** A client that asks for the first page and then follows cursors; `tables[i]` is what the i-th request sees. */
  ghost predicate IsWalk(tables: seq<seq<Object>>, pages: seq<Page>, requested: nat) {
    && 0 < |pages| == |tables|
    && pages[0] == GetPage(tables[0], None, requested)
    && (forall i | 0 < i < |pages| :: FollowsCursor(tables[i], pages[i], pages, i, requested))
  }

  ghost predicate FollowsCursor(table: seq<Object>, page: Page, pages: seq<Page>, i: nat, requested: nat)
    requires 0 < i <= |pages|
  {
    pages[i - 1].next.Some? && page == GetPage(table, pages[i - 1].next, requested)
  }

  /** Between requests objects are only added, and only in front: newer than everything there. */
  ghost predicate OnlyNewer(tables: seq<seq<Object>>) {
    && (forall i | 0 <= i < |tables| :: Ordered(tables[i]))
    && (forall i | 0 < i < |tables| :: EndsWith(tables[i], tables[i - 1]))
  }

  ghost predicate EndsWith(table: seq<Object>, old_: seq<Object>) {
    |old_| <= |table| && table[|table| - |old_|..] == old_
  }

  /** Everything on the first `k` pages. */
  function Items(pages: seq<Page>, k: nat): seq<Object>
    requires k <= |pages|
  {
    if k == 0 then [] else Items(pages, k - 1) + pages[k - 1].items
  }

  lemma {:induction false} FindAt(table: seq<Object>, i: nat)
    requires Ordered(table) && i < |table|
    ensures Find(table, table[i].id) == Some(table[i])
  {
    if i > 0 {
      FindAt(table[1..], i - 1);
    }
  }

  lemma {:induction false} AfterAll(table: seq<Object>, c: Object)
    requires forall i | 0 <= i < |table| :: Precedes(c, table[i])
    ensures After(table, c) == table
  {
    if table != [] {
      AfterAll(table[1..], c);
    }
  }

  /** What comes after a row of the table is the rest of the table. */
  lemma {:induction false} AfterAt(table: seq<Object>, i: nat)
    requires Ordered(table) && i < |table|
    ensures After(table, table[i]) == table[i + 1..]
  {
    if i == 0 {
      AfterAll(table[1..], table[0]);
    } else {
      AfterAt(table[1..], i - 1);
      assert table[1..][i..] == table[i + 1..];
    }
  }

  /** The query after the m-th old object sees the old objects that follow, however many newer ones there are. */
  lemma RowsAfter(table: seq<Object>, old_: seq<Object>, m: nat, limit: nat)
    requires Ordered(table) && EndsWith(table, old_) && 0 < m <= |old_|
    ensures ListObjects(table, Some(old_[m - 1].id), limit) == Take(old_[m..], limit + 1)
  {
    var d := |table| - |old_|;
    var c := old_[m - 1];
    assert table[d + m - 1] == c by {
      OldRows(table, old_, m - 1);
    }
    assert Find(table, c.id) == Some(c) by {
      FindAt(table, d + m - 1);
    }
    assert After(table, c) == old_[m..] by {
      AfterAt(table, d + m - 1);
      OldRows(table, old_, m);
    }
  }

  lemma OldRows(table: seq<Object>, old_: seq<Object>, i: nat)
    requires EndsWith(table, old_) && i <= |old_|
    ensures var d := |table| - |old_|; table[d + i..] == old_[i..] && (i < |old_| ==> table[d + i] == old_[i])
  {
    var d := |table| - |old_|;
    assert table[d..][i..] == table[d + i..];
    assert i < |old_| ==> table[d..][i] == table[d + i];
  }

  lemma PageAfter(table: seq<Object>, old_: seq<Object>, m: nat, requested: nat)
    requires Ordered(table) && EndsWith(table, old_) && 0 < m <= |old_| && requested >= 1
    ensures var page := GetPage(table, Some(old_[m - 1].id), requested);
            && page.items == Take(old_[m..], Cap(requested))
            && page.next == CursorAfter(old_, m + Cap(requested))
  {
    RowsAfter(table, old_, m, Cap(requested));
    TakeTwice(old_[m..], Cap(requested));
  }

  lemma TakeTwice(s: seq<Object>, limit: nat)
    ensures Take(Take(s, limit + 1), limit) == Take(s, limit)
  {
  }

  /** The cursor of a page that ends with the first `m` objects. */
  function CursorAfter(table: seq<Object>, m: nat): Option<nat> {
    if 0 < m < |table| then Some(table[m - 1].id) else None
  }

  lemma FirstPage(table: seq<Object>, requested: nat)
    requires requested >= 1
    ensures var page := GetPage(table, None, requested);
            page.items == Take(table, Cap(requested)) && page.next == CursorAfter(table, Cap(requested))
  {
    TakeTwice(table, Cap(requested));
  }

  lemma {:induction false} StillEndsWith(tables: seq<seq<Object>>, i: nat)
    requires OnlyNewer(tables) && i < |tables|
    ensures EndsWith(tables[i], tables[0])
  {
    if i > 0 {
      StillEndsWith(tables, i - 1);
      var a, b, c := tables[0], tables[i - 1], tables[i];
      assert EndsWith(c, b);
      assert c[|c| - |a|..] == c[|c| - |b|..][|b| - |a|..];
    }
  }

  lemma TakeMore(s: seq<Object>, m: nat, limit: nat)
    requires m <= |s|
    ensures Take(s, m) + Take(s[m..], limit) == Take(s, m + limit)
  {
  }

  /** How many objects `n` full pages hold. */
  ghost function Full(n: nat, limit: nat): nat {
    if n == 0 then 0 else Full(n - 1, limit) + limit
  }

  lemma {:induction false} FullIs(n: nat, limit: nat)
    ensures Full(n, limit) == n * limit
  {
    if n > 0 {
      FullIs(n - 1, limit);
    }
  }

  /** A page with the objects that follow the first `m`, and a cursor if more are left. */
  ghost predicate IsPageFrom(page: Page, all: seq<Object>, m: nat, limit: nat) {
    m <= |all| && page.items == Take(all[m..], limit) && page.next == CursorAfter(all, m + limit)
  }

  lemma NextPage(all: seq<Object>, table: seq<Object>, cursor: Option<nat>, page: Page, m: nat, requested: nat)
    requires Ordered(table) && EndsWith(table, all) && requested >= 1
    requires cursor.Some? && cursor == CursorAfter(all, m) && page == GetPage(table, cursor, requested)
    ensures IsPageFrom(page, all, m, Cap(requested))
  {
    PageAfter(table, all, m, requested);
  }

  lemma {:induction false} PagesFollow(tables: seq<seq<Object>>, pages: seq<Page>, k: nat, requested: nat)
    requires OnlyNewer(tables) && IsWalk(tables, pages, requested) && requested >= 1 && k < |pages|
    ensures IsPageFrom(pages[k], tables[0], Full(k, Cap(requested)), Cap(requested))
    ensures k > 0 ==> Full(k, Cap(requested)) < |tables[0]|
  {
    if k == 0 {
      FirstPage(tables[0], requested);
      assert tables[0][0..] == tables[0];
    } else {
      PagesFollow(tables, pages, k - 1, requested);
      StillEndsWith(tables, k);
      assert FollowsCursor(tables[k], pages[k], pages, k, requested);
      NextPage(tables[0], tables[k], pages[k - 1].next, pages[k], Full(k, Cap(requested)), requested);
    }
  }

  lemma PageExtends(all: seq<Object>, page: Page, m: nat, limit: nat)
    requires IsPageFrom(page, all, m, limit)
    ensures Take(all, m) + page.items == Take(all, m + limit)
  {
    TakeMore(all, m, limit);
  }

  ghost predicate PagesFrom(all: seq<Object>, pages: seq<Page>, k: nat, limit: nat)
    requires k <= |pages|
  {
    k == 0 || (PagesFrom(all, pages, k - 1, limit) && IsPageFrom(pages[k - 1], all, Full(k - 1, limit), limit))
  }

  lemma {:induction false} AllPagesFollow(tables: seq<seq<Object>>, pages: seq<Page>, k: nat, requested: nat)
    requires OnlyNewer(tables) && IsWalk(tables, pages, requested) && requested >= 1 && k <= |pages|
    ensures PagesFrom(tables[0], pages, k, Cap(requested))
  {
    if k > 0 {
      AllPagesFollow(tables, pages, k - 1, requested);
      PagesFollow(tables, pages, k - 1, requested);
    }
  }

  lemma {:induction false} ItemsAre(all: seq<Object>, pages: seq<Page>, k: nat, limit: nat)
    requires k <= |pages| && PagesFrom(all, pages, k, limit)
    ensures Items(pages, k) == Take(all, Full(k, limit))
  {
    if k > 0 {
      ItemsAre(all, pages, k - 1, limit);
      PageExtends(all, pages[k - 1], Full(k - 1, limit), limit);
    }
  }

  /** A walk is through exactly when its full pages hold everything. */
  lemma LastCursor(tables: seq<seq<Object>>, pages: seq<Page>, requested: nat)
    requires OnlyNewer(tables) && IsWalk(tables, pages, requested) && requested >= 1
    ensures |pages| > 1 ==> Full(|pages| - 1, Cap(requested)) < |tables[0]|
    ensures pages[|pages| - 1].next.None? <==> |tables[0]| <= Full(|pages|, Cap(requested))
  {
    PagesFollow(tables, pages, |pages| - 1, requested);
  }

  /** Everything the client has so far. */
  lemma ItemsSoFar(tables: seq<seq<Object>>, pages: seq<Page>, requested: nat)
    requires OnlyNewer(tables) && IsWalk(tables, pages, requested) && requested >= 1
    ensures Items(pages, |pages|) == Take(tables[0], Full(|pages|, Cap(requested)))
  {
    AllPagesFollow(tables, pages, |pages|, requested);
    ItemsAre(tables[0], pages, |pages|, Cap(requested));
  }

  /** A walk that has run out of cursors has visited every object of the first table exactly once, newest first, and
      nothing else, in as few pages as hold them: one if there are none. */
  lemma WalkVisitsAllOnce(tables: seq<seq<Object>>, pages: seq<Page>, requested: nat)
    requires OnlyNewer(tables) && IsWalk(tables, pages, requested) && requested >= 1
    requires pages[|pages| - 1].next.None?
    ensures Items(pages, |pages|) == tables[0]
    ensures |tables[0]| <= |pages| * Cap(requested) && (|pages| > 1 ==> (|pages| - 1) * Cap(requested) < |tables[0]|)
  {
    LastCursor(tables, pages, requested);
    ItemsSoFar(tables, pages, requested);
    FullIs(|pages|, Cap(requested));
    FullIs(|pages| - 1, Cap(requested));
  }

  /** And no walk goes on for longer: there is a next cursor exactly while the pages so far do not hold everything. */
  lemma WalkIsBounded(tables: seq<seq<Object>>, pages: seq<Page>, requested: nat)
    requires OnlyNewer(tables) && IsWalk(tables, pages, requested) && requested >= 1
    ensures |pages| > 1 ==> (|pages| - 1) * Cap(requested) < |tables[0]|
    ensures pages[|pages| - 1].next.None? <==> |tables[0]| <= |pages| * Cap(requested)
  {
    LastCursor(tables, pages, requested);
    FullIs(|pages|, Cap(requested));
    FullIs(|pages| - 1, Cap(requested));
  }
}
