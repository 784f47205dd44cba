/** GET /api/entries: the caller's entries, optionally filtered by a
    case-insensitive search, newest first, one page at a time. The table is a
    sequence of rows and each query a pure function of it. */
module Listing {
  import opened Wrappers
  import opened Text
  import opened Schema

  const DefaultPage := 1
  const DefaultLimit := 40

  /** `page`, `limit` and `search` after the server's defaulting. */
  datatype ListQuery = ListQuery(page: int, limit: int, search: string)

  /** The JSON body of a successful listing. */
  datatype ListResponse = ListResponse(
    entries: seq<Entry>,
    currentPage: int,
    totalPages: nat,
    totalEntries: nat,
    hasMore: bool)

  /** `parseInt(raw) || fallback`: a missing parameter, `NaN` and `0` are all
      falsy and give the fallback. */
  function QueryNumber(raw: Option<string>, fallback: int): int
  {
    if raw.None? then fallback
    else match ParseInt(raw.value)
      case None => fallback
      case Some(n) => if n == 0 then fallback else n
  }

  /** Reads the three query parameters as the handler does. */
  function ParseListQuery(page: Option<string>, limit: Option<string>, search: Option<string>): (q: ListQuery)
    ensures q.page != 0 && q.limit != 0
    ensures page.None? ==> q.page == DefaultPage
    ensures limit.None? ==> q.limit == DefaultLimit
    ensures page.Some? && ParseInt(page.value).Some? && ParseInt(page.value).value != 0 ==>
              q.page == ParseInt(page.value).value
    ensures limit.Some? && ParseInt(limit.value).Some? && ParseInt(limit.value).value != 0 ==>
              q.limit == ParseInt(limit.value).value
    ensures page.Some? && (ParseInt(page.value).None? || ParseInt(page.value).value == 0) ==>
              q.page == DefaultPage
    ensures limit.Some? && (ParseInt(limit.value).None? || ParseInt(limit.value).value == 0) ==>
              q.limit == DefaultLimit
    ensures q.search == if search.Some? then search.value else ""
  {
    ListQuery(QueryNumber(page, DefaultPage), QueryNumber(limit, DefaultLimit),
              if search.Some? && search.value != "" then search.value else "")
  }

  /** The OR of the three case-insensitive `contains` conditions, present only
      when the search text is not empty. */
  predicate MatchesSearch(e: Entry, search: string)
  {
    || search == ""
    || ContainsInsensitive(e.title, search)
    || ContainsInsensitive(e.director, search)
    || ContainsInsensitive(e.entryType, search)
  }

  /** The `where` object of the query: owned by the caller and matching. */
  predicate InWhere(e: Entry, userId: int, search: string)
  {
    e.userId == userId && MatchesSearch(e, search)
  }

  /** The rows selected by the `where` object, in table order. */
  function Where(rows: seq<Entry>, userId: int, search: string): (r: seq<Entry>)
    ensures |r| <= |rows|
    ensures forall e :: e in r <==> e in rows && InWhere(e, userId, search)
  {
    if rows == [] then []
    else (if InWhere(rows[0], userId, search) then [rows[0]] else []) + Where(rows[1..], userId, search)
  }

  /** Selecting from two parts of the table selects from each, in order. */
  lemma {:induction false} WhereAppend(a: seq<Entry>, b: seq<Entry>, userId: int, search: string)
    ensures Where(a + b, userId, search) == Where(a, userId, search) + Where(b, userId, search)
    decreases |a|
  {
    if a != [] {
      assert (a + b)[1..] == a[1..] + b;
      WhereAppend(a[1..], b, userId, search);
    } else {
      assert a + b == b;
    }
  }

  ghost predicate NewestFirst(s: seq<Entry>)
  {
    forall i, j :: 0 <= i < j < |s| ==> s[i].createdAt >= s[j].createdAt
  }

  lemma InsertBehindHead(e: Entry, s: seq<Entry>, rest: seq<Entry>)
    requires NewestFirst(s) && NewestFirst(rest)
    requires s != [] && e.createdAt < s[0].createdAt
    requires multiset(rest) == multiset(s[1..]) + multiset{e}
    ensures NewestFirst([s[0]] + rest)
    ensures multiset([s[0]] + rest) == multiset(s) + multiset{e}
  {
    var r := [s[0]] + rest;
    forall j | 0 < j < |r| ensures r[0].createdAt >= r[j].createdAt {
      var x := rest[j - 1];
      assert x in multiset(rest);
      if x != e {
        assert x in multiset(s[1..]);
        var k :| 0 <= k < |s[1..]| && s[1..][k] == x;
        assert s[k + 1] == x;
      }
    }
    assert s == [s[0]] + s[1..];
  }

  function InsertByDate(e: Entry, s: seq<Entry>): (r: seq<Entry>)
    requires NewestFirst(s)
    ensures |r| == |s| + 1
    ensures NewestFirst(r)
    ensures multiset(r) == multiset(s) + multiset{e}
  {
    if s == [] || e.createdAt >= s[0].createdAt then [e] + s
    else
      var rest := InsertByDate(e, s[1..]);
      InsertBehindHead(e, s, rest);
      [s[0]] + rest
  }

  /** `orderBy: { createdAt: 'desc' }`: newest first, the same rows. */
  function OrderByNewest(s: seq<Entry>): (r: seq<Entry>)
    ensures |r| == |s|
    ensures NewestFirst(r)
    ensures multiset(r) == multiset(s)
  {
    if s == [] then []
    else
      assert s == [s[0]] + s[1..];
      InsertByDate(s[0], OrderByNewest(s[1..]))
  }

  /** No two different rows share a creation time. The query orders by
      `createdAt` alone, so this is what makes its order a single one. */
  ghost predicate DistinctDates(s: seq<Entry>)
  {
    forall i, j :: 0 <= i < |s| && 0 <= j < |s| && s[i].createdAt == s[j].createdAt ==> s[i] == s[j]
  }

  /** Two permutations of each other that start alike continue alike. */
  lemma TailsArePermutations(a: seq<Entry>, b: seq<Entry>)
    requires a != [] && b != [] && a[0] == b[0] && multiset(a) == multiset(b)
    ensures multiset(a[1..]) == multiset(b[1..])
  {
    assert a == [a[0]] + a[1..] && b == [b[0]] + b[1..];
    assert multiset(a) == multiset{a[0]} + multiset(a[1..]);
    assert multiset(b) == multiset{a[0]} + multiset(b[1..]);
    forall x ensures multiset(a[1..])[x] == multiset(b[1..])[x] {
      assert multiset(a)[x] == multiset{a[0]}[x] + multiset(a[1..])[x];
      assert multiset(b)[x] == multiset{a[0]}[x] + multiset(b[1..])[x];
    }
  }

  /** The newest row of a set with distinct creation times comes first in
      every newest-first arrangement of it. */
  lemma NewestComesFirst(a: seq<Entry>, b: seq<Entry>)
    requires NewestFirst(a) && NewestFirst(b) && multiset(a) == multiset(b)
    requires DistinctDates(a) && a != [] && b != []
    ensures a[0] == b[0]
  {
    assert b[0] in multiset(a) && a[0] in multiset(b);
    var k :| 0 <= k < |a| && a[k] == b[0];
    var m :| 0 <= m < |b| && b[m] == a[0];
    assert a[0].createdAt >= a[k].createdAt == b[0].createdAt >= b[m].createdAt == a[0].createdAt;
  }

  /** With distinct creation times there is only one newest-first
      arrangement of a set of rows. */
  lemma {:induction false} NewestFirstIsUnique(a: seq<Entry>, b: seq<Entry>)
    requires NewestFirst(a) && NewestFirst(b) && multiset(a) == multiset(b)
    requires DistinctDates(a)
    ensures a == b
    decreases |a|
  {
    assert |a| == |multiset(a)| == |multiset(b)| == |b|;
    if a != [] {
      NewestComesFirst(a, b);
      TailsArePermutations(a, b);
      NewestFirstIsUnique(a[1..], b[1..]);
      assert a == [a[0]] + a[1..] && b == [b[0]] + b[1..];
    }
  }

  /** Two rows created at the same time: both arrangements are newest first,
      and a first page taken in one and a second page taken in the other,
      one row per page, both list the same row while the other row is on
      neither. */
  lemma TiedRowsCanRepeatAcrossPages(a: Entry, b: Entry)
    requires a.createdAt == b.createdAt && a != b
    ensures !DistinctDates([a, b])
    ensures NewestFirst([a, b]) && NewestFirst([b, a]) && multiset([a, b]) == multiset([b, a])
    ensures Slice([a, b], Offset(1, 1), 1) == [a] && Slice([b, a], Offset(2, 1), 1) == [a]
  {
  }

  function Min(a: int, b: int): int
  {
    if a <= b then a else b
  }

  /** `skip` then `take`: the rows from position `skip`, at most `take` of them. */
  function Slice(s: seq<Entry>, skip: nat, take: nat): (r: seq<Entry>)
    ensures |r| == if skip >= |s| then 0 else Min(take, |s| - skip)
    ensures forall i :: 0 <= i < |r| ==> r[i] == s[skip + i]
  {
    if skip >= |s| then [] else s[skip..Min(skip + take, |s|)]
  }

  /** `Math.ceil(n / d)` for a positive divisor. */
  function CeilDiv(n: nat, d: int): nat
    requires d > 0
  {
    (n + d - 1) / d
  }

  lemma MulMonotone(a: int, b: int, c: int)
    requires a <= b && c >= 0
    ensures a * c <= b * c
  {
    assert b * c - a * c == (b - a) * c;
  }

  lemma CeilDivBounds(n: nat, d: int)
    requires d > 0
    ensures n <= CeilDiv(n, d) * d < n + d
  {
    var q := CeilDiv(n, d);
    var m := (n + d - 1) % d;
    assert n + d - 1 == q * d + m;
  }

  /** `page < ceil(total / limit)` holds exactly when some matching row lies
      beyond the first `page` pages. */
  lemma HasMoreIff(page: int, limit: int, total: nat)
    requires limit > 0
    ensures page < CeilDiv(total, limit) <==> page * limit < total
  {
    var q := CeilDiv(total, limit);
    CeilDivBounds(total, limit);
    if page < q {
      MulMonotone(page, q - 1, limit);
      assert (q - 1) * limit == q * limit - limit;
    } else {
      MulMonotone(q, page, limit);
    }
  }

  /** The number of rows the query skips for a page. */
  function Offset(page: int, limit: int): nat
    requires page >= 1 && limit >= 1
  {
    MulMonotone(0, page - 1, limit);
    (page - 1) * limit
  }

  /** The caller's matching rows in the order the query returns them. */
  function Ordered(rows: seq<Entry>, userId: int, search: string): seq<Entry>
  {
    OrderByNewest(Where(rows, userId, search))
  }

  /** When the caller's matches have distinct creation times, any newest-first
      arrangement of them, whatever order the database produces, is `Ordered`. */
  lemma OrderIsForced(rows: seq<Entry>, userId: int, search: string, s: seq<Entry>)
    requires DistinctDates(Where(rows, userId, search))
    requires NewestFirst(s) && multiset(s) == multiset(Where(rows, userId, search))
    ensures s == Ordered(rows, userId, search)
  {
    var matching := Where(rows, userId, search);
    assert DistinctDates(s) by {
      forall i, j | 0 <= i < |s| && 0 <= j < |s| && s[i].createdAt == s[j].createdAt
        ensures s[i] == s[j]
      {
        assert s[i] in multiset(matching) && s[j] in multiset(matching);
        var p :| 0 <= p < |matching| && matching[p] == s[i];
        var q :| 0 <= q < |matching| && matching[q] == s[j];
      }
    }
    NewestFirstIsUnique(s, Ordered(rows, userId, search));
  }

  /** The handler's response for a caller and a query. */
  function ListEntries(rows: seq<Entry>, userId: int, q: ListQuery): (r: ListResponse)
    requires q.page >= 1 && q.limit >= 1
    ensures r.currentPage == q.page
    ensures r.totalEntries == |Where(rows, userId, q.search)|
    ensures |r.entries| <= q.limit
    ensures forall e :: e in r.entries ==> e in rows && e.userId == userId && MatchesSearch(e, q.search)
    ensures NewestFirst(r.entries)
    ensures r.totalPages == CeilDiv(r.totalEntries, q.limit)
    ensures r.hasMore <==> q.page < r.totalPages
  {
    var matching := Where(rows, userId, q.search);
    var ordered := Ordered(rows, userId, q.search);
    var total := |matching|;
    var totalPages := CeilDiv(total, q.limit);
    var page := Slice(ordered, Offset(q.page, q.limit), q.limit);
    assert forall e :: e in page ==> e in ordered;
    assert forall e :: e in ordered ==> e in matching by {
      forall e | e in ordered ensures e in matching {
        assert e in multiset(ordered);
      }
    }
    ListResponse(page, q.page, totalPages, total, q.page < totalPages)
  }

  /** `hasMore` holds exactly when matching rows remain beyond the first
      `page` pages of `limit` rows. */
  lemma HasMoreIffRowsRemain(rows: seq<Entry>, userId: int, q: ListQuery)
    requires q.page >= 1 && q.limit >= 1
    ensures ListEntries(rows, userId, q).hasMore <==> q.page * q.limit < ListEntries(rows, userId, q).totalEntries
  {
    HasMoreIff(q.page, q.limit, ListEntries(rows, userId, q).totalEntries);
  }

  /** A page is the window of the ordered matches that starts after the
      skipped rows and holds `limit` of them, or fewer at the end. */
  lemma PageIsWindow(rows: seq<Entry>, userId: int, q: ListQuery)
    requires q.page >= 1 && q.limit >= 1
    ensures var r := ListEntries(rows, userId, q);
            var ordered := Ordered(rows, userId, q.search);
            var skip := Offset(q.page, q.limit);
            && |ordered| == r.totalEntries
            && |r.entries| == (if skip >= |ordered| then 0 else Min(q.limit, |ordered| - skip))
            && forall i :: 0 <= i < |r.entries| ==> r.entries[i] == ordered[skip + i]
  {
    var r := ListEntries(rows, userId, q);
    assert r.entries == Slice(Ordered(rows, userId, q.search), Offset(q.page, q.limit), q.limit);
  }

  lemma PageOfIndex(k: nat, limit: int)
    requires limit >= 1
    ensures k / limit >= 0
    ensures Offset(k / limit + 1, limit) + k % limit == k
    ensures 0 <= k % limit < limit
  {
    assert Offset(k / limit + 1, limit) == (k / limit) * limit;
  }

  lemma PageWithinTotal(page: int, limit: int, total: nat)
    requires limit >= 1 && page >= 1 && Offset(page, limit) < total
    ensures page <= CeilDiv(total, limit)
  {
    HasMoreIff(page - 1, limit, total);
  }

  lemma MatchOnPage(rows: seq<Entry>, userId: int, search: string, limit: int, page: int, i: int)
    requires limit >= 1 && page >= 1 && 0 <= i < limit
    requires Offset(page, limit) + i < |Where(rows, userId, search)|
    ensures var r := ListEntries(rows, userId, ListQuery(page, limit, search));
            && page <= r.totalPages
            && i < |r.entries|
            && r.entries[i] == Ordered(rows, userId, search)[Offset(page, limit) + i]
  {
    PageIsWindow(rows, userId, ListQuery(page, limit, search));
    PageWithinTotal(page, limit, |Where(rows, userId, search)|);
  }

  /** Every match is listed: the k-th newest match sits at position
      `k % limit` of page `k / limit + 1`, and that page is within the
      `totalPages` the response reports. */
  lemma EveryMatchOnItsPage(rows: seq<Entry>, userId: int, search: string, limit: int, k: nat)
    requires limit >= 1 && k < |Where(rows, userId, search)|
    requires DistinctDates(Where(rows, userId, search))
    ensures var r := ListEntries(rows, userId, ListQuery(k / limit + 1, limit, search));
            && k / limit + 1 <= r.totalPages
            && k % limit < |r.entries|
            && r.entries[k % limit] == Ordered(rows, userId, search)[k]
  {
    var page, i := k / limit + 1, k % limit;
    PageOfIndex(k, limit);
    MatchOnPage(rows, userId, search, limit, page, i);
  }

  /** A page query run on its own: whatever newest-first arrangement `s` of
      the caller's matches the database produces for it, the page it lists
      is the model's page, provided the matches have distinct creation times. */
  lemma PageOfAnyArrangement(rows: seq<Entry>, userId: int, q: ListQuery, s: seq<Entry>)
    requires q.page >= 1 && q.limit >= 1
    requires DistinctDates(Where(rows, userId, q.search))
    requires NewestFirst(s) && multiset(s) == multiset(Where(rows, userId, q.search))
    ensures Slice(s, Offset(q.page, q.limit), q.limit) == ListEntries(rows, userId, q).entries
  {
    OrderIsForced(rows, userId, q.search, s);
    PageIsWindow(rows, userId, q);
  }

  /** A page beyond the last one is empty and reports no more pages. */
  lemma PastLastPageIsEmpty(rows: seq<Entry>, userId: int, q: ListQuery)
    requires q.page >= 1 && q.limit >= 1
    requires q.page > ListEntries(rows, userId, q).totalPages
    ensures ListEntries(rows, userId, q).entries == []
    ensures !ListEntries(rows, userId, q).hasMore
  {
    var r := ListEntries(rows, userId, q);
    PageIsWindow(rows, userId, q);
    CeilDivBounds(r.totalEntries, q.limit);
    MulMonotone(r.totalPages, q.page - 1, q.limit);
  }

  /** Fifteen matching rows at twelve per page: a full first page that
      reports more, then the remaining three and no more. */
  lemma FifteenRowsTwelvePerPage(rows: seq<Entry>, userId: int)
    requires |Where(rows, userId, "")| == 15
    ensures var p1 := ListEntries(rows, userId, ListQuery(1, 12, ""));
            |p1.entries| == 12 && p1.totalPages == 2 && p1.hasMore
    ensures var p2 := ListEntries(rows, userId, ListQuery(2, 12, ""));
            |p2.entries| == 3 && p2.totalPages == 2 && !p2.hasMore
  {
    PageIsWindow(rows, userId, ListQuery(1, 12, ""));
    PageIsWindow(rows, userId, ListQuery(2, 12, ""));
  }
}
