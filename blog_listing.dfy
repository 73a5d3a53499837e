/**
 * The two listing queries of app/blog/routes.py, as pure functions of a
 * snapshot of the blogs table: the caller's own blogs newest first
 * (`get_blogs`, line 25) and the paginated, searchable, sortable listing
 * (`get_blogs`, line 65).
 *
 * A snapshot is the table's rows in the order the database scans them.
 * ORDER BY leaves the order of ties to the database; here ties keep scan
 * order, and the contracts promise only what ORDER BY promises.
 */
module BlogListing {
  import opened Wrappers
  import opened Strings
  import opened SqlLike
  import opened Database

  /** The columns of Blog, the only names the sort accepts. */
  datatype Column =
    | UserIdColumn | IdColumn | TitleColumn | ContentColumn
    | CreatedAtColumn | UpdatedAtColumn | IsActiveColumn

  function ColumnNamed(name: string): Option<Column> {
    match name
    case "user_id" => Some(UserIdColumn)
    case "id" => Some(IdColumn)
    case "title" => Some(TitleColumn)
    case "content" => Some(ContentColumn)
    case "created_at" => Some(CreatedAtColumn)
    case "updated_at" => Some(UpdatedAtColumn)
    case "is_active" => Some(IsActiveColumn)
    case _ => None
  }

  /** The `order` query parameter, which the framework restricts to "asc" or "desc". */
  datatype Order = Asc | Desc

  datatype SortKey = IntKey(i: int) | TextKey(s: string) | BoolKey(b: bool)

  function KeyOf(col: Column, b: Blog): SortKey {
    match col
    case UserIdColumn => IntKey(b.userId)
    case IdColumn => IntKey(b.id)
    case TitleColumn => TextKey(b.title)
    case ContentColumn => TextKey(b.content)
    case CreatedAtColumn => IntKey(b.createdAt)
    case UpdatedAtColumn => IntKey(b.updatedAt)
    case IsActiveColumn => BoolKey(b.isActive)
  }

  /** Text compares character by character (a binary collation). */
  predicate TextLeq(a: string, b: string)
    decreases |a|
  {
    a == [] || (b != [] && (a[0] < b[0] || (a[0] == b[0] && TextLeq(a[1..], b[1..]))))
  }

  function KindRank(k: SortKey): nat {
    match k
    case IntKey(_) => 0
    case TextKey(_) => 1
    case BoolKey(_) => 2
  }

  /** Keys of one column are of one kind; false sorts before true. */
  predicate KeyLeq(x: SortKey, y: SortKey) {
    if KindRank(x) != KindRank(y) then KindRank(x) < KindRank(y)
    else match x
      case IntKey(a) => a <= y.i
      case TextKey(a) => TextLeq(a, y.s)
      case BoolKey(a) => !a || y.b
  }

  lemma {:induction false} TextLeqTotal(a: string, b: string)
    ensures TextLeq(a, b) || TextLeq(b, a)
    decreases |a|
  {
    if a != [] && b != [] && a[0] == b[0] {
      TextLeqTotal(a[1..], b[1..]);
    }
  }

  lemma {:induction false} TextLeqTransitive(a: string, b: string, c: string)
    requires TextLeq(a, b) && TextLeq(b, c)
    ensures TextLeq(a, c)
    decreases |a|
  {
    if a != [] && a[0] == b[0] && b[0] == c[0] {
      TextLeqTransitive(a[1..], b[1..], c[1..]);
    }
  }

  lemma KeyLeqTotal(x: SortKey, y: SortKey)
    ensures KeyLeq(x, y) || KeyLeq(y, x)
  {
    if x.TextKey? && y.TextKey? {
      TextLeqTotal(x.s, y.s);
    }
  }

  lemma KeyLeqTransitive(x: SortKey, y: SortKey, z: SortKey)
    requires KeyLeq(x, y) && KeyLeq(y, z)
    ensures KeyLeq(x, z)
  {
    if x.TextKey? && y.TextKey? && z.TextKey? {
      TextLeqTransitive(x.s, y.s, z.s);
    }
  }

  /** `a` may come before `b` under ORDER BY col ASC or DESC. */
  predicate Precedes(col: Column, ord: Order, a: Blog, b: Blog) {
    if ord == Asc then KeyLeq(KeyOf(col, a), KeyOf(col, b)) else KeyLeq(KeyOf(col, b), KeyOf(col, a))
  }

  lemma PrecedesTotal(col: Column, ord: Order, a: Blog, b: Blog)
    ensures Precedes(col, ord, a, b) || Precedes(col, ord, b, a)
  {
    KeyLeqTotal(KeyOf(col, a), KeyOf(col, b));
  }

  lemma PrecedesTransitive(col: Column, ord: Order, a: Blog, b: Blog, c: Blog)
    requires Precedes(col, ord, a, b) && Precedes(col, ord, b, c)
    ensures Precedes(col, ord, a, c)
  {
    if ord == Asc {
      KeyLeqTransitive(KeyOf(col, a), KeyOf(col, b), KeyOf(col, c));
    } else {
      KeyLeqTransitive(KeyOf(col, c), KeyOf(col, b), KeyOf(col, a));
    }
  }

  ghost predicate SortedBy(col: Column, ord: Order, s: seq<Blog>) {
    forall i, j :: 0 <= i < j < |s| ==> Precedes(col, ord, s[i], s[j])
  }

  /** Place x before the first row it may precede. */
  function Insert(col: Column, ord: Order, x: Blog, s: seq<Blog>): seq<Blog>
    decreases |s|
  {
    if s == [] then [x]
    else if Precedes(col, ord, x, s[0]) then [x] + s
    else [s[0]] + Insert(col, ord, x, s[1..])
  }

  /** ORDER BY col ASC|DESC over the rows, ties in scan order. */
  function SortBy(col: Column, ord: Order, s: seq<Blog>): seq<Blog>
    decreases |s|
  {
    if s == [] then [] else Insert(col, ord, s[0], SortBy(col, ord, s[1..]))
  }

  lemma {:induction false} InsertMultiset(col: Column, ord: Order, x: Blog, s: seq<Blog>)
    ensures multiset(Insert(col, ord, x, s)) == multiset(s) + multiset{x}
    decreases |s|
  {
    if s != [] && !Precedes(col, ord, x, s[0]) {
      InsertMultiset(col, ord, x, s[1..]);
      assert s == [s[0]] + s[1..];
    }
  }

  /** The head of a sorted sequence may precede every row of its tail, and x too when x may not precede it. */
  lemma HeadPrecedesInsert(col: Column, ord: Order, x: Blog, s: seq<Blog>)
    requires SortedBy(col, ord, s) && s != [] && !Precedes(col, ord, x, s[0])
    ensures forall y :: y in Insert(col, ord, x, s[1..]) ==> Precedes(col, ord, s[0], y)
  {
    InsertMultiset(col, ord, x, s[1..]);
    PrecedesTotal(col, ord, x, s[0]);
    forall y | y in Insert(col, ord, x, s[1..]) ensures Precedes(col, ord, s[0], y) {
      assert y in multiset(Insert(col, ord, x, s[1..]));
      if y != x {
        assert y in multiset(s[1..]);
        var k :| 0 <= k < |s[1..]| && s[1..][k] == y;
        assert s[k + 1] == y;
      }
    }
  }

  lemma {:induction false} InsertSorted(col: Column, ord: Order, x: Blog, s: seq<Blog>)
    requires SortedBy(col, ord, s)
    ensures SortedBy(col, ord, Insert(col, ord, x, s))
    decreases |s|
  {
    if s == [] {
    } else if Precedes(col, ord, x, s[0]) {
      var r := [x] + s;
      forall i, j | 0 <= i < j < |r| ensures Precedes(col, ord, r[i], r[j]) {
        if i == 0 && j > 1 {
          PrecedesTransitive(col, ord, x, s[0], s[j - 1]);
        }
      }
    } else {
      var t := Insert(col, ord, x, s[1..]);
      assert SortedBy(col, ord, s[1..]) by {
        forall i, j | 0 <= i < j < |s[1..]| ensures Precedes(col, ord, s[1..][i], s[1..][j]) {
          assert s[1..][i] == s[i + 1] && s[1..][j] == s[j + 1];
        }
      }
      InsertSorted(col, ord, x, s[1..]);
      HeadPrecedesInsert(col, ord, x, s);
      var r := [s[0]] + t;
      forall i, j | 0 <= i < j < |r| ensures Precedes(col, ord, r[i], r[j]) {
        if i == 0 {
          assert r[j] in t;
        } else {
          assert r[i] == t[i - 1] && r[j] == t[j - 1];
        }
      }
    }
  }

  lemma {:induction false} SortByMultiset(col: Column, ord: Order, s: seq<Blog>)
    ensures multiset(SortBy(col, ord, s)) == multiset(s)
    decreases |s|
  {
    if s != [] {
      var t := SortBy(col, ord, s[1..]);
      SortByMultiset(col, ord, s[1..]);
      InsertMultiset(col, ord, s[0], t);
      assert SortBy(col, ord, s) == Insert(col, ord, s[0], t);
      assert multiset(s) == multiset{s[0]} + multiset(s[1..]) by {
        assert s == [s[0]] + s[1..];
      }
    }
  }

  lemma {:induction false} SortBySorted(col: Column, ord: Order, s: seq<Blog>)
    ensures SortedBy(col, ord, SortBy(col, ord, s))
    decreases |s|
  {
    if s != [] {
      SortBySorted(col, ord, s[1..]);
      InsertSorted(col, ord, s[0], SortBy(col, ord, s[1..]));
    }
  }

  /** The sort returns the rows it was given, in order. */
  lemma SortByCorrect(col: Column, ord: Order, s: seq<Blog>)
    ensures multiset(SortBy(col, ord, s)) == multiset(s)
    ensures SortedBy(col, ord, SortBy(col, ord, s))
  {
    SortByMultiset(col, ord, s);
    SortBySorted(col, ord, s);
  }

  predicate Distinct(s: seq<Blog>) {
    forall i, j :: 0 <= i < j < |s| ==> s[i] != s[j]
  }

  /** The rows a WHERE clause keeps, in scan order. */
  function Select(rows: seq<Blog>, keep: Blog -> bool): (r: seq<Blog>)
    ensures forall b :: b in r <==> b in rows && keep(b)
    ensures |r| <= |rows|
    decreases |rows|
  {
    if rows == [] then []
    else if keep(rows[0]) then [rows[0]] + Select(rows[1..], keep)
    else Select(rows[1..], keep)
  }

  lemma DistinctTail(rows: seq<Blog>)
    requires Distinct(rows) && rows != []
    ensures Distinct(rows[1..]) && rows[0] !in rows[1..]
  {
    var t := rows[1..];
    forall i, j | 0 <= i < j < |t| ensures t[i] != t[j] {
      assert t[i] == rows[i + 1] && t[j] == rows[j + 1];
    }
    forall k | 0 <= k < |t| ensures t[k] != rows[0] {
      assert t[k] == rows[k + 1];
    }
  }

  lemma SelectedSetOfCons(rows: seq<Blog>, keep: Blog -> bool)
    requires rows != []
    ensures (set b | b in rows && keep(b))
         == (set b | b in rows[1..] && keep(b)) + (if keep(rows[0]) then {rows[0]} else {})
  {
    assert forall b :: b in rows <==> b == rows[0] || b in rows[1..] by {
      assert rows == [rows[0]] + rows[1..];
    }
  }

  /** Over rows that are each stored once, the query counts each matching row once. */
  lemma {:induction false} SelectCount(rows: seq<Blog>, keep: Blog -> bool)
    requires Distinct(rows)
    ensures |Select(rows, keep)| == |set b | b in rows && keep(b)|
    decreases |rows|
  {
    if rows == [] {
      assert (set b | b in rows && keep(b)) == {};
    } else {
      DistinctTail(rows);
      SelectCount(rows[1..], keep);
      SelectedSetOfCons(rows, keep);
    }
  }

  /** `if search:` — an absent or empty term filters nothing; otherwise title ILIKE '%term%'. */
  predicate MatchesSearch(b: Blog, search: Option<string>) {
    search.None? || search.value == "" || ILike(b.title, "%" + search.value + "%")
  }

  function SearchFilter(rows: seq<Blog>, search: Option<string>): seq<Blog> {
    Select(rows, b => MatchesSearch(b, search))
  }

  /** The blogs the search keeps, as a set of rows. */
  ghost function MatchingRows(rows: seq<Blog>, search: Option<string>): set<Blog> {
    set b | b in rows && MatchesSearch(b, search)
  }

  /** A column of Blog sorts in the requested order; any other name sorts by updated_at descending. */
  function EffectiveSort(sortBy: string, order: Order): (Column, Order) {
    match ColumnNamed(sortBy)
    case Some(col) => (col, order)
    case None => (UpdatedAtColumn, Desc)
  }

  /** The whole result of the listing query before OFFSET and LIMIT. */
  function Ordered(rows: seq<Blog>, sortBy: string, order: Order, search: Option<string>): seq<Blog> {
    var (col, ord) := EffectiveSort(sortBy, order);
    SortBy(col, ord, SearchFilter(rows, search))
  }

  /** (total + limit - 1) // limit. */
  function PageCount(total: nat, limit: int): int
    requires limit >= 1
  {
    (total + limit - 1) / limit
  }

  /** The page count is the ceiling of total / limit: zero pages for no rows, and no empty page at the end. */
  lemma PageCountIsCeiling(total: nat, limit: int)
    requires limit >= 1
    ensures var p := PageCount(total, limit);
      && p >= 0 && p * limit >= total
      && (p == 0 <==> total == 0)
      && (total > 0 ==> (p - 1) * limit < total)
  {
    var n := total + limit - 1;
    var p, r := n / limit, n % limit;
    assert n == p * limit + r && 0 <= r < limit;
    assert (p - 1) * limit == p * limit - limit;
    assert p * limit >= total;
    if total == 0 {
      assert p * limit < limit;
    }
  }

  function Min(a: int, b: int): int {
    if a <= b then a else b
  }

  /** The number of rows before page `page`. */
  function Offset(page: int, limit: int): nat
    requires page >= 1 && limit >= 1
  {
    (page - 1) * limit
  }

  /** OFFSET (page - 1) * limit LIMIT limit. */
  function PageItems(s: seq<Blog>, page: int, limit: int): seq<Blog>
    requires page >= 1 && limit >= 1
  {
    var offset := Offset(page, limit);
    if offset >= |s| then [] else s[offset..Min(offset + limit, |s|)]
  }

  /** Pages 1..n one after another. */
  function FirstPages(s: seq<Blog>, limit: int, n: nat): seq<Blog>
    requires limit >= 1
  {
    if n == 0 then [] else FirstPages(s, limit, n - 1) + PageItems(s, n, limit)
  }

  lemma {:induction false} FirstPagesArePrefix(s: seq<Blog>, limit: int, n: nat)
    requires limit >= 1
    ensures n * limit >= 0
    ensures FirstPages(s, limit, n) == s[..Min(n * limit, |s|)]
  {
    if n > 0 {
      FirstPagesArePrefix(s, limit, n - 1);
      var a := (n - 1) * limit;
      assert n * limit == a + limit;
      assert a >= 0;
      if a >= |s| {
        assert Min(n * limit, |s|) == |s| == Min(a, |s|);
      } else {
        var b := Min(n * limit, |s|);
        assert s[..a] + s[a..b] == s[..b];
      }
    }
  }

  /** Walking pages 1..pages visits every matching blog exactly once, in listing order. */
  lemma PagesPartitionListing(s: seq<Blog>, limit: int)
    requires limit >= 1
    ensures PageCount(|s|, limit) >= 0
    ensures FirstPages(s, limit, PageCount(|s|, limit)) == s
  {
    PageCountIsCeiling(|s|, limit);
    FirstPagesArePrefix(s, limit, PageCount(|s|, limit));
    assert s[..|s|] == s;
  }

  datatype Page = Page(items: seq<Blog>, page: int, limit: int, total: int, pages: int)

  lemma SortedSlice(col: Column, ord: Order, s: seq<Blog>, a: int, b: int)
    requires SortedBy(col, ord, s) && 0 <= a <= b <= |s|
    ensures SortedBy(col, ord, s[a..b])
  {
    forall i, j | 0 <= i < j < b - a ensures Precedes(col, ord, s[a..b][i], s[a..b][j]) {
      assert s[a..b][i] == s[a + i] && s[a..b][j] == s[a + j];
    }
  }

  lemma PageItemsFacts(col: Column, ord: Order, s: seq<Blog>, page: int, limit: int)
    requires page >= 1 && limit >= 1
    ensures |PageItems(s, page, limit)| <= limit
    ensures Offset(page, limit) >= |s| <==> PageItems(s, page, limit) == []
    ensures Offset(page, limit) < |s| ==> |PageItems(s, page, limit)| == Min(limit, |s| - Offset(page, limit))
    ensures forall b :: b in PageItems(s, page, limit) ==> b in s
    ensures SortedBy(col, ord, s) ==> SortedBy(col, ord, PageItems(s, page, limit))
  {
    var offset := Offset(page, limit);
    if offset < |s| && SortedBy(col, ord, s) {
      SortedSlice(col, ord, s, offset, Min(offset + limit, |s|));
    }
  }

  lemma PageItemsIndex(s: seq<Blog>, page: int, limit: int, k: int)
    requires page >= 1 && limit >= 1
    requires 0 <= k < |PageItems(s, page, limit)|
    ensures Offset(page, limit) + k < |s|
    ensures PageItems(s, page, limit)[k] == s[Offset(page, limit) + k]
  {
  }

  /**
   * The paginated listing (`page` >= 1 and 1 <= `limit` <= 100 are enforced by
   * the framework before the handler runs). No owner filter applies: every
   * user's blogs are listed.
   */
  function ListPage(rows: seq<Blog>, page: int, limit: int, sortBy: string, order: Order,
                    search: Option<string>): (r: Page)
    requires page >= 1 && 1 <= limit <= 100
    ensures r.page == page && r.limit == limit
    ensures r.total == |SearchFilter(rows, search)|
    ensures r.pages * limit >= r.total && (r.pages == 0 <==> r.total == 0)
    ensures r.total > 0 ==> (r.pages - 1) * limit < r.total
    ensures |r.items| <= limit
    ensures Offset(page, limit) >= r.total <==> r.items == []
    ensures Offset(page, limit) < r.total ==> |r.items| == Min(limit, r.total - Offset(page, limit))
    ensures r.items == PageItems(Ordered(rows, sortBy, order, search), page, limit)
    ensures forall b :: b in r.items ==> b in rows && MatchesSearch(b, search)
    ensures SortedBy(EffectiveSort(sortBy, order).0, EffectiveSort(sortBy, order).1, r.items)
  {
    var s := Ordered(rows, sortBy, order, search);
    var (col, ord) := EffectiveSort(sortBy, order);
    SortByCorrect(col, ord, SearchFilter(rows, search));
    assert |s| == |SearchFilter(rows, search)| by {
      assert |multiset(s)| == |multiset(SearchFilter(rows, search))|;
    }
    PageCountIsCeiling(|s|, limit);
    PageItemsFacts(col, ord, s, page, limit);
    var items := PageItems(s, page, limit);
    forall b | b in items ensures b in rows && MatchesSearch(b, search) {
      assert b in multiset(s);
      assert b in SearchFilter(rows, search);
    }
    Page(items, page, limit, |s|, PageCount(|s|, limit))
  }

  /** The listing returns exactly the matching blogs, reordered. */
  lemma ListingIsPermutationOfMatches(rows: seq<Blog>, sortBy: string, order: Order, search: Option<string>)
    ensures multiset(Ordered(rows, sortBy, order, search)) == multiset(SearchFilter(rows, search))
    ensures forall b :: b in Ordered(rows, sortBy, order, search) <==> b in rows && MatchesSearch(b, search)
  {
    var (col, ord) := EffectiveSort(sortBy, order);
    SortByCorrect(col, ord, SearchFilter(rows, search));
    forall b ensures b in Ordered(rows, sortBy, order, search) <==> b in SearchFilter(rows, search) {
      assert b in multiset(Ordered(rows, sortBy, order, search)) <==> b in multiset(SearchFilter(rows, search));
    }
  }

  /** Each page is the slice of the full listing that starts at (page - 1) * limit. */
  lemma PageIsSliceOfListing(rows: seq<Blog>, page: int, limit: int, sortBy: string, order: Order,
                             search: Option<string>, k: int)
    requires page >= 1 && 1 <= limit <= 100
    requires 0 <= k < |ListPage(rows, page, limit, sortBy, order, search).items|
    ensures Offset(page, limit) + k < |Ordered(rows, sortBy, order, search)|
    ensures ListPage(rows, page, limit, sortBy, order, search).items[k]
         == Ordered(rows, sortBy, order, search)[Offset(page, limit) + k]
  {
    var s := Ordered(rows, sortBy, order, search);
    assert ListPage(rows, page, limit, sortBy, order, search).items == PageItems(s, page, limit);
    PageItemsIndex(s, page, limit, k);
  }

  /** With distinct rows (as a table scan yields), total counts every matching blog once. */
  lemma TotalCountsMatches(rows: seq<Blog>, page: int, limit: int, sortBy: string, order: Order,
                           search: Option<string>)
    requires page >= 1 && 1 <= limit <= 100
    requires Distinct(rows)
    ensures ListPage(rows, page, limit, sortBy, order, search).total == |MatchingRows(rows, search)|
  {
    SelectCount(rows, b => MatchesSearch(b, search));
    assert MatchingRows(rows, search) == set b | b in rows && (b => MatchesSearch(b, search))(b);
  }

  /** A page past the last one is empty, and reports the same total and page count as page 1. */
  lemma PastLastPageIsEmpty(rows: seq<Blog>, page: int, limit: int, sortBy: string, order: Order,
                            search: Option<string>)
    requires page >= 1 && 1 <= limit <= 100
    requires page > ListPage(rows, page, limit, sortBy, order, search).pages
    ensures ListPage(rows, page, limit, sortBy, order, search).items == []
    ensures ListPage(rows, page, limit, sortBy, order, search).total == ListPage(rows, 1, limit, sortBy, order, search).total
    ensures ListPage(rows, page, limit, sortBy, order, search).pages == ListPage(rows, 1, limit, sortBy, order, search).pages
  {
    var r := ListPage(rows, page, limit, sortBy, order, search);
    assert Offset(page, limit) >= r.pages * limit by {
      MultiplyMonotone(r.pages, page - 1, limit);
    }
  }

  lemma MultiplyMonotone(a: int, b: int, c: int)
    requires a <= b && c >= 0
    ensures a * c <= b * c
  {
  }

  /** An unknown sort_by ignores `order` and lists newest updates first. */
  lemma UnknownSortFallsBack(rows: seq<Blog>, page: int, limit: int, sortBy: string, order: Order,
                             search: Option<string>)
    requires page >= 1 && 1 <= limit <= 100
    requires ColumnNamed(sortBy).None?
    ensures ListPage(rows, page, limit, sortBy, order, search)
         == ListPage(rows, page, limit, "updated_at", Desc, search)
  {
  }

  /** A search term without '%', '_' or '\\' finds the titles that contain it, ignoring ASCII case. */
  lemma LiteralSearchIsSubstring(b: Blog, term: string)
    requires NoPatternChars(term)
    ensures MatchesSearch(b, Some(term)) <==> Contains(Lower(b.title), Lower(term))
  {
    if term == "" {
      assert OccursAt(Lower(b.title), Lower(term), 0);
    } else {
      SearchIsCaseInsensitiveSubstring(b.title, term);
    }
  }

  /** The simple listing: the caller's own blogs, most recently updated first. */
  function OwnBlogsNewestFirst(rows: seq<Blog>, caller: int): (r: seq<Blog>)
    ensures SortedBy(UpdatedAtColumn, Desc, r)
    ensures forall b :: b in r <==> b in rows && b.userId == caller
    ensures |r| == |Select(rows, (b: Blog) => b.userId == caller)|
  {
    var own := Select(rows, (b: Blog) => b.userId == caller);
    SortByCorrect(UpdatedAtColumn, Desc, own);
    var r := SortBy(UpdatedAtColumn, Desc, own);
    forall b ensures b in r <==> b in own {
      assert b in multiset(r) <==> b in multiset(own);
    }
    assert |multiset(r)| == |multiset(own)|;
    r
  }
}
